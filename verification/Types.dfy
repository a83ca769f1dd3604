/** The records that travel between the parts of a node, and what is not modelled of a node's
    surroundings: the hash function, public-key recovery and JSON. */
module Types {
  import opened Text

  type Address = string

  /** What a client signs and sends. */
  datatype RawTransaction = RawTransaction(from: Address, to: Address, value: int, nonce: nat, signature: string)

  datatype Transaction =
    Transaction(hash: string, from: Address, to: Address, value: int, nonce: nat, signature: string)

  datatype Block = Block(
    number: nat, hash: string, parentHash: string, timestamp: nat, merkleRoot: string,
    transactions: seq<Transaction>, miner: Address)

  /** `keccak` is Keccak-256; `recovers` tells whether the key recovered from a message hash and
      a signature belongs to an address; `encode` is the JSON text of a raw transaction. */
  datatype Env = Env(
    keccak: seq<Byte> -> Digest,
    recovers: (Digest, seq<Byte>, Address) -> bool,
    encode: RawTransaction -> seq<Byte>)

  /** 0x and forty hexadecimal digits. */
  predicate IsValidAddress(address: Address) {
    |address| == 42 && address[0] == '0' && address[1] == 'x' && IsHex(address[2..])
  }

  function Min(a: int, b: int): int {
    if a < b then a else b
  }
}
