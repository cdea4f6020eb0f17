/** The values the search passes around: 20-byte addresses, opaque private
    keys, and the Result record that a generator emits. */
module Types {

  /** A 20-byte Ethereum-style address, most significant byte first. */
  type Address = a: seq<bv8> | |a| == 20 witness seq(20, _ => 0)

  /** Key material is opaque to the search: it is only carried along. */
  datatype PrivateKey = PrivateKey(material: seq<bv8>)

  /** One candidate: its address, the key it came from and the nonce used
      to derive it (always 0 for account addresses). */
  datatype Result = Result(address: Address, privateKey: PrivateKey, nonce: int)

  /** The shape of every scoring function: >0 if a is better than b, <0 if
      b is better, 0 otherwise. */
  type Scorer = (Address, Address) -> int

  /** A value that may be absent: a failed map lookup, or a best-so-far
      before anything has arrived. */
  datatype Option<T> = None | Some(value: T)

  /** The address whose every byte is zero. */
  const Zero: Address := seq(20, _ => 0)

  /** The address whose every byte is 0xff. */
  const Ones: Address := seq(20, _ => 0xff)
}
