/** Types the modules share. */
module MachineTypes {
  /** A byte, for code that works on its bits. */
  type Byte = bv8

  /** A byte, for code that uses it as a number or does not look inside. */
  newtype Octet = x: int | 0 <= x < 0x100

  const TWO_TO_32 := 0x1_0000_0000

  datatype Option<+T> = None | Some(value: T)

  /** The low `k` bytes of a number, least significant first. */
  function LittleEndian(n: nat, k: nat): (b: seq<Octet>)
    ensures |b| == k
  {
    if k == 0 then [] else [(n % 0x100) as Octet] + LittleEndian(n / 0x100, k - 1)
  }

  lemma LittleEndianSplits(n: nat, k: nat)
    requires k > 0
    ensures LittleEndian(n, k)[0] == (n % 0x100) as Octet && LittleEndian(n, k)[1..] == LittleEndian(n / 0x100, k - 1)
  {}
}
