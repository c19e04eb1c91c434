/**
  The byte comparator: the `while (true)` loop of `RunTest` that reads one
  byte at a time from the reference file and from the candidate file and
  stops at the first end of stream or first differing byte.
*/
module ByteCompare {
  import opened FileTree

  /** How the candidate file relates to the reference file. */
  datatype Verdict =
    | Identical
      /** The reference ended first: the candidate "was too long". */
    | TooLong
      /** The candidate ended first: it "was too short". */
    | TooShort
      /** Both go on, and a byte differs: it "had different contents". */
    | DifferentContents

  /** The verdict for reference bytes `x` and candidate bytes `y`, stated by prefixes. */
  function CompareBytes(x: seq<byte>, y: seq<byte>): Verdict {
    if x == y then Identical
    else if x < y then TooLong
    else if y < x then TooShort
    else DifferentContents
  }

  /** `x` and `y` share their first `k` bytes and then differ at byte `k`. */
  ghost predicate FirstMismatchAt(x: seq<byte>, y: seq<byte>, k: nat) {
    k < |x| && k < |y| && x[..k] == y[..k] && x[k] != y[k]
  }

  /** Two sequences with the same first byte: a prefix relation on their tails lifts to them. */
  lemma {:induction false} PrefixAfterHead(x: seq<byte>, y: seq<byte>)
    requires x != [] && y != [] && x[0] == y[0]
    ensures x[1..] <= y[1..] ==> x <= y
  {
    if x[1..] <= y[1..] {
      assert x == [x[0]] + x[1..] && y == [y[0]] + y[1..];
    }
  }

  lemma {:induction false} MismatchExists(x: seq<byte>, y: seq<byte>)
    requires !(x <= y) && !(y <= x)
    ensures exists k: nat :: FirstMismatchAt(x, y, k)
  {
    assert x != [] && y != [];
    if x[0] != y[0] {
      assert FirstMismatchAt(x, y, 0);
    } else {
      PrefixAfterHead(x, y);
      PrefixAfterHead(y, x);
      MismatchExists(x[1..], y[1..]);
      var k: nat :| FirstMismatchAt(x[1..], y[1..], k);
      assert x[..k + 1] == [x[0]] + x[1..][..k];
      assert y[..k + 1] == [y[0]] + y[1..][..k];
      assert FirstMismatchAt(x, y, k + 1);
    }
  }

  /**
    Byte comparison: "had different contents" exactly when the files share
    a prefix and then differ at some byte; "too long" exactly when the
    reference is a strict prefix of the candidate; "too short" exactly when
    the candidate is a strict prefix of the reference; identical bytes give no
    difference.
  */
  lemma {:induction false} CompareBytesMeaning(x: seq<byte>, y: seq<byte>)
    ensures CompareBytes(x, y) == Identical <==> x == y
    ensures CompareBytes(x, y) == TooLong <==> x < y
    ensures CompareBytes(x, y) == TooShort <==> y < x
    ensures CompareBytes(x, y) == DifferentContents <==> exists k: nat :: FirstMismatchAt(x, y, k)
  {
    if CompareBytes(x, y) == DifferentContents {
      MismatchExists(x, y);
    }
    if exists k: nat :: FirstMismatchAt(x, y, k) {
      var k: nat :| FirstMismatchAt(x, y, k);
      assert x[k] != y[k];
      assert !(x <= y) && !(y <= x);
    }
  }

  /**
    A read-only `FileStream` over the bytes of one file. `ReadByte` returns
    the next byte, or -1 once the stream has ended.
  */
  class ByteStream {
    const data: seq<byte>
    var position: nat
    var isOpen: bool

    ghost predicate Valid()
      reads this
    {
      position <= |data|
    }

    constructor (contents: seq<byte>)
      ensures data == contents && position == 0 && isOpen && Valid()
    {
      data := contents;
      position := 0;
      isOpen := true;
    }

    method ReadByte() returns (b: int)
      requires isOpen && Valid()
      modifies this
      ensures isOpen && Valid()
      ensures old(position) < |data| ==> b == data[old(position)] && position == old(position) + 1
      ensures old(position) == |data| ==> b == -1 && position == old(position)
    {
      if position < |data| {
        b := data[position];
        position := position + 1;
      } else {
        b := -1;
      }
    }

    method Close()
      modifies this
      ensures !isOpen && position == old(position)
    {
      isOpen := false;
    }
  }

  /**
    The comparison loop: reads both streams in step until one ends or a
    byte differs, and returns the verdict the two files' bytes determine.
  */
  method CompareStreams(f1: ByteStream, f2: ByteStream) returns (v: Verdict)
    requires f1 != f2
    requires f1.isOpen && f2.isOpen && f1.position == 0 && f2.position == 0
    modifies f1, f2
    ensures v == CompareBytes(f1.data, f2.data)
    ensures f1.isOpen && f2.isOpen
  {
    v := Identical;
    while true
      invariant f1.isOpen && f2.isOpen && f1.Valid() && f2.Valid()
      invariant f1.position == f2.position
      invariant f1.data[..f1.position] == f2.data[..f2.position]
      decreases |f1.data| - f1.position
    {
      var b := f1.ReadByte();
      var b2 := f2.ReadByte();
      if b == -1 {
        assert f1.data == f1.data[..f1.position];
        if b2 != -1 {
          v := TooLong;
        } else {
          assert f2.data == f2.data[..f2.position];
          v := Identical;
        }
        break;
      }
      if b2 == -1 {
        assert f2.data == f2.data[..f2.position];
        v := TooShort;
        break;
      }
      if b != b2 {
        ghost var k := f1.position - 1;
        assert f1.data[k] != f2.data[k];
        v := DifferentContents;
        break;
      }
      assert f1.data[..f1.position] == f1.data[..f1.position - 1] + [f1.data[f1.position - 1]];
      assert f2.data[..f2.position] == f2.data[..f2.position - 1] + [f2.data[f2.position - 1]];
    }
  }
}
