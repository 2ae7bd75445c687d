/** `struct seccomp_data`: the record a filter sees for one syscall, and the
    words a filter can load from it. */
module SeccompData {
  import opened Words

  /** One syscall: its number, ABI, instruction pointer and six arguments. */
  datatype RawEvent = RawEvent(nr: i32, arch: u32, instructionPointer: u64, args: seq<u64>)

  type Event = e: RawEvent | |e.args| == 6
    witness RawEvent(0, 0, 0, [0, 0, 0, 0, 0, 0])

  /** The syscall number as the unsigned word the kernel stores. */
  function NrWord(e: Event): u32 {
    if e.nr < 0 then e.nr + W32 else e.nr
  }

  /** The 64 bytes of the record. */
  function Bytes(e: Event): seq<u8> {
    ToLE(NrWord(e), 4) + ToLE(e.arch, 4) + ToLE(e.instructionPointer, 8) + ArgBytes(e.args)
  }

  function ArgBytes(args: seq<u64>): (b: seq<u8>)
    ensures |b| == 8 * |args|
  {
    if args == [] then [] else ArgBytes(args[..|args| - 1]) + ToLE(args[|args| - 1], 8)
  }

  /** The little-endian word at byte offset k, zero past the end of the data. */
  function WordAt(data: seq<u8>, k: nat): u32 {
    var b := data[Min(k, |data|)..Min(k + 4, |data|)];
    var padded := b + seq(4 - |b|, _ => 0);
    LEInverse(padded);
    Pow256Values();
    FromLE(padded)
  }

  function Min(a: nat, b: nat): nat { if a < b then a else b }

  lemma WordOfBytes(data: seq<u8>, k: nat, v: u32)
    requires k + 4 <= |data| && data[k..k + 4] == ToLE(v, 4)
    ensures WordAt(data, k) == v
  {
    Pow256Values();
    LERoundTrip(v, 4);
    assert data[k..k + 4] + seq(0, _ => 0) == data[k..k + 4];
  }

  lemma {:induction false} ArgBytesAt(args: seq<u64>, i: nat)
    requires i < |args|
    ensures ArgBytes(args)[8 * i..8 * i + 8] == ToLE(args[i], 8)
  {
    var last := |args| - 1;
    if i < last {
      ArgBytesAt(args[..last], i);
      assert ArgBytes(args)[8 * i..8 * i + 8] == ArgBytes(args[..last])[8 * i..8 * i + 8];
    }
  }

  const OFF_NR := 0
  const OFF_ARCH := 4
  const OFF_ARG0 := 16

  /** A word is its four bytes, least significant first. */
  lemma WordIs(data: seq<u8>, k: nat)
    requires k + 4 <= |data|
    ensures WordAt(data, k)
         == data[k] as int + 0x100 * (data[k + 1] as int) + 0x1_0000 * (data[k + 2] as int) + 0x100_0000 * (data[k + 3] as int)
  {
    var b := data[k..k + 4];
    assert b + seq(0, _ => 0) == b;
    assert FromLE(b[3..]) == b[3];
    assert b[2..][1..] == b[3..] && b[1..][1..] == b[2..];
    assert FromLE(b[2..]) == b[2] + 0x100 * FromLE(b[3..]);
    assert FromLE(b[1..]) == b[1] + 0x100 * FromLE(b[2..]);
  }

  /** Offset 0 holds the number, as an unsigned word, and offset 4 the ABI. */
  lemma HeaderWords(e: Event)
    ensures |Bytes(e)| == 64
    ensures WordAt(Bytes(e), 0) == e.nr % 0x1_0000_0000 == NrWord(e)
    ensures WordAt(Bytes(e), 4) == e.arch
  {
    var b := Bytes(e);
    assert b[0..4] == ToLE(NrWord(e), 4);
    WordOfBytes(b, 0, NrWord(e));
    assert b[4..8] == ToLE(e.arch, 4);
    WordOfBytes(b, 4, e.arch);
  }

  /** Argument i has its low word at offset 16 + 8i and its high word 4 later. */
  lemma ArgWords(e: Event, i: nat)
    requires i < 6
    ensures WordAt(Bytes(e), 16 + 8 * i) == e.args[i] % 0x1_0000_0000 == Lo(e.args[i])
    ensures WordAt(Bytes(e), 16 + 8 * i + 4) == e.args[i] / 0x1_0000_0000 == Hi(e.args[i])
  {
    var b, k, v := Bytes(e), OFF_ARG0 + 8 * i, e.args[i];
    var header := ToLE(NrWord(e), 4) + ToLE(e.arch, 4) + ToLE(e.instructionPointer, 8);
    ArgBytesAt(e.args, i);
    LEWords(v);
    assert b[k..k + 8] == ArgBytes(e.args)[8 * i..8 * i + 8] by { assert b == header + ArgBytes(e.args); }
    assert b[k..k + 4] == b[k..k + 8][..4] == ToLE(Lo(v), 4);
    assert b[k + 4..k + 8] == b[k..k + 8][4..] == ToLE(Hi(v), 4);
    WordOfBytes(b, k, Lo(v));
    WordOfBytes(b, k + 4, Hi(v));
  }
}
