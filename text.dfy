/** Decoding of fixed-width directory text, and the Python string helpers `cat` relies on. */
module Text {
  import opened Bytes

  /** The character `toString` emits for one byte: `chr(b)` for a non-zero byte, and a
      blank for the zero byte that pads names and extensions. */
  function CharOf(b: Byte): char {
    if b > 0 then b as char else ' '
  }

  /** The decoding of a whole field, one character per byte. */
  function Decoded(s: seq<Byte>): (r: string)
    ensures |r| == |s|
  {
    seq(|s|, k requires 0 <= k < |s| => CharOf(s[k]))
  }

  /** What each decoded character is: a blank for the zero byte, `chr(b)` otherwise. */
  lemma DecodedChar(s: seq<Byte>, k: int)
    requires 0 <= k < |s|
    ensures Decoded(s)[k] == (if s[k] == 0 then ' ' else s[k] as char)
  {
  }

  /** toString: builds the decoded field one character at a time. */
  method ToString(s: seq<Byte>) returns (out: string)
    ensures out == Decoded(s)
  {
    out := "";
    for i := 0 to |s|
      invariant |out| == i
      invariant forall k :: 0 <= k < i ==> out[k] == CharOf(s[k])
    {
      if s[i] > 0 {
        out := out + [s[i] as char];
      } else {
        out := out + " ";
      }
    }
  }

  /** Decoding loses nothing on fields without zero bytes: equal text means equal bytes. */
  lemma DecodedInjective(a: seq<Byte>, b: seq<Byte>)
    requires forall k :: 0 <= k < |a| ==> a[k] != 0
    requires forall k :: 0 <= k < |b| ==> b[k] != 0
    requires Decoded(a) == Decoded(b)
    ensures a == b
  {
    assert |a| == |Decoded(a)| == |Decoded(b)| == |b|;
    forall k | 0 <= k < |a|
      ensures a[k] == b[k]
    {
      assert Decoded(a)[k] == Decoded(b)[k];
      assert (a[k] as char) as int == a[k];
    }
  }

  /** A zero padding byte and a space byte decode alike, so injectivity needs non-zero bytes. */
  lemma DecodedPaddingCollision()
    ensures Decoded([0]) == Decoded([32])
  {
  }

  /** Python's `str.isspace()` on the characters 0..255 that a decoded field can hold. */
  predicate IsSpace(c: char) {
    c as int in {9, 10, 11, 12, 13, 28, 29, 30, 31, 32, 133, 160}
  }

  /** Python's `str.rstrip()`: drop trailing whitespace. */
  function RStrip(s: string): (r: string)
    ensures r <= s
    ensures r == [] || !IsSpace(r[|r| - 1])
    ensures forall k :: |r| <= k < |s| ==> IsSpace(s[k])
  {
    if |s| > 0 && IsSpace(s[|s| - 1]) then RStrip(s[..|s| - 1]) else s
  }

  /** Python's `str.split(sep)`: the pieces between separators, at least one. */
  function Split(s: string, sep: char): (r: seq<string>)
    ensures |r| >= 1
    ensures forall k :: 0 <= k < |r| ==> sep !in r[k]
  {
    if s == [] then [""]
    else
      var rest := Split(s[1..], sep);
      if s[0] == sep then [""] + rest else [[s[0]] + rest[0]] + rest[1..]
  }

  /** Python's `sep.join(parts)`. */
  function Join(parts: seq<string>, sep: char): string
    decreases |parts|
  {
    if |parts| == 0 then ""
    else if |parts| == 1 then parts[0]
    else parts[0] + [sep] + Join(parts[1..], sep)
  }

  /** Splitting loses nothing: joining the pieces with the separator gives the string back. */
  lemma {:induction false} SplitJoin(s: string, sep: char)
    ensures Join(Split(s, sep), sep) == s
    decreases |s|
  {
    if s != [] {
      var rest := Split(s[1..], sep);
      SplitJoin(s[1..], sep);
      if s[0] == sep {
        assert Split(s, sep) == [""] + rest;
        assert ([""] + rest)[1..] == rest;
        assert Join([""] + rest, sep) == "" + [sep] + Join(rest, sep);
      } else {
        var r := [[s[0]] + rest[0]] + rest[1..];
        assert Split(s, sep) == r;
        if |rest| == 1 {
          assert Join(rest, sep) == rest[0];
        } else {
          assert r[1..] == rest[1..];
          assert Join(rest, sep) == rest[0] + [sep] + Join(rest[1..], sep);
        }
        assert s == [s[0]] + s[1..];
      }
    }
  }
}
