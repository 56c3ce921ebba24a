/**
 The messages of the streaming protocol (vm/src/apdu.h, vm/src/stream.c,
 vm/src/ecall.c) and what is kept abstract of their cryptography.
 */
module Protocol {
  import opened Machine
  import opened MerkleTerms
  import opened Pages

  /** The static key authenticates the application's pages, the dynamic one those the device commits. */
  datatype Key = StaticKey | DynamicKey

  /** Ideal HMAC: a tag is the authenticated message under a key, or some other 32 bytes. */
  datatype Mac = Hmac(key: Key, data: PageData, addr: u32, iv: u32) | OtherBytes(id: nat)

  /** A counter of zero is reserved for pages authenticated when the application was signed. */
  function KeyFor(iv: u32): Key {
    if iv == 0 then StaticKey else DynamicKey
  }

  /** AES-CBC under the dynamic key, with the page address and counter as initialisation vector. */
  datatype Cipher = Cipher(encrypt: (PageData, u32, u32) -> PageData, decrypt: (PageData, u32, u32) -> PageData) {
    ghost predicate Valid() {
      forall data: PageData, addr: u32, iv: u32 {:trigger encrypt(data, addr, iv)} ::
        decrypt(encrypt(data, addr, iv), addr, iv) == data
    }

    /** The bytes a page is stored under: pages never committed are stored in the clear. */
    function Sealed(data: PageData, addr: u32, iv: u32): PageData {
      if iv == 0 then data else encrypt(data, addr, iv)
    }
  }

  /** What the device sends in one io_exchange. */
  datatype Command =
    | RequestPage(addr: u32)
    | RequestHmac
    | RequestProof
    | CommitPage(data: PageData)
    | CommitHmac(addr: u32, iv: u32, mac: Mac)
    | SendBuffer(bytes: seq<u8>, size: u8, counter: u32)
    | RecvBuffer(counter: u32, maxsize: u16)

  /** What comes back; NoReply is anything the device does not parse as the reply it waits for. */
  datatype Reply =
    | PageReply(first: u8, rest: seq<u8>)
    | HmacReply(iv: u32, mac: Mac)
    | ProofReply(proof: seq<ProofStep>)
    | Ack
    | BufferReply(p1: u8, p2: u8, data: seq<u8>)
    | NoReply
}
