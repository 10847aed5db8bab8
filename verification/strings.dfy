/** The pieces of Go's `strings` package and of Go's string-to-bytes
    conversion that the engine relies on, over Dafny strings of Unicode
    scalar values. */
module Strings {
  import opened Wrappers

  /** One byte of a Go byte slice. */
  type byte = x: int | 0 <= x < 256

  /** The characters of `s`, as a cut set. */
  function Chars(s: string): (r: set<char>)
    ensures forall i :: 0 <= i < |s| ==> s[i] in r
    ensures forall c :: c in r ==> c in s
  {
    set c | c in s
  }

  /** `strings.TrimLeft(s, cutset)`: drops every leading character that
      belongs to the cut set. It removes characters, not a prefix. */
  function TrimLeft(s: string, cut: set<char>): (r: string)
    ensures |r| <= |s| && r == s[|s| - |r|..]
    ensures |r| > 0 ==> r[0] !in cut
    ensures forall i :: 0 <= i < |s| - |r| ==> s[i] in cut
  {
    if |s| > 0 && s[0] in cut then TrimLeft(s[1..], cut) else s
  }

  /** The three facts above characterise TrimLeft: any suffix whose stripped
      part lies in the cut set and which does not itself start with a cut
      character is the result. */
  lemma TrimLeftUnique(s: string, cut: set<char>, k: nat)
    requires k <= |s|
    requires forall i :: 0 <= i < k ==> s[i] in cut
    requires k < |s| ==> s[k] !in cut
    ensures TrimLeft(s, cut) == s[k..]
  {
  }

  /** Trimming twice removes nothing more. */
  lemma TrimLeftIdempotent(s: string, cut: set<char>)
    ensures TrimLeft(TrimLeft(s, cut), cut) == TrimLeft(s, cut)
  {
    var r := TrimLeft(s, cut);
    TrimLeftUnique(r, cut, 0);
  }

  /** The position of the first `c` in `s`. */
  function IndexOf(s: string, c: char): (r: Option<nat>)
    ensures r.None? <==> c !in s
    ensures r.Some? ==> r.value < |s| && s[r.value] == c && c !in s[..r.value]
  {
    if |s| == 0 then None
    else if s[0] == c then Some(0)
    else
      match IndexOf(s[1..], c)
      case None => None
      case Some(i) => Some(i + 1)
  }

  /** `strings.SplitN(s, sep, 2)` for a one-character separator: the whole
      string when the separator is absent, otherwise the parts before and
      after its first occurrence. */
  function SplitN2(s: string, sep: char): (r: seq<string>)
    ensures |r| == 1 || |r| == 2
    ensures |r| == 1 <==> sep !in s
    ensures |r| == 1 ==> r[0] == s
    ensures |r| == 2 ==> r[0] + [sep] + r[1] == s && sep !in r[0]
  {
    match IndexOf(s, sep)
    case None => [s]
    case Some(i) =>
      assert s[..i] + [sep] + s[i + 1..] == s;
      [s[..i], s[i + 1..]]
  }

  /** `n` copies of `c`. */
  function Repeat(c: char, n: nat): (r: string)
    ensures |r| == n
    ensures forall i :: 0 <= i < n ==> r[i] == c
  {
    if n == 0 then [] else [c] + Repeat(c, n - 1)
  }

  /** The UTF-8 encoding of one Unicode scalar value, as Go stores it. */
  function EncodeRune(c: char): (r: seq<byte>)
    ensures 1 <= |r| <= 4
    ensures |r| == 1 <==> (c as int) < 0x80
  {
    var n := c as int;
    if n < 0x80 then [n]
    else if n < 0x800 then [0xC0 + n / 0x40, 0x80 + n % 0x40]
    else if n < 0x1_0000 then [0xE0 + n / 0x1000, 0x80 + (n / 0x40) % 0x40, 0x80 + n % 0x40]
    else [0xF0 + n / 0x4_0000, 0x80 + (n / 0x1000) % 0x40, 0x80 + (n / 0x40) % 0x40, 0x80 + n % 0x40]
  }

  /** Decodes the byte sequence of one encoded rune back to its code point. */
  function DecodeRune(b: seq<byte>): int
    requires 1 <= |b| <= 4
  {
    var b0, b1, b2, b3 := b[0] as int, if |b| > 1 then b[1] as int else 0,
      if |b| > 2 then b[2] as int else 0, if |b| > 3 then b[3] as int else 0;
    if |b| == 1 then b0
    else if |b| == 2 then (b0 - 0xC0) * 0x40 + (b1 - 0x80)
    else if |b| == 3 then ((b0 - 0xE0) * 0x40 + (b1 - 0x80)) * 0x40 + (b2 - 0x80)
    else (((b0 - 0xF0) * 0x40 + (b1 - 0x80)) * 0x40 + (b2 - 0x80)) * 0x40 + (b3 - 0x80)
  }

  /** Every rune's encoding decodes back to the rune. */
  lemma EncodeRuneRoundTrip(c: char)
    ensures DecodeRune(EncodeRune(c)) == c as int
  {
    var n := c as int;
    var q1 := n / 0x40;
    var q2 := q1 / 0x40;
    assert n == q1 * 0x40 + n % 0x40;
    assert q1 == q2 * 0x40 + q1 % 0x40;
    if n >= 0x1_0000 {
      assert n / 0x1000 == q2;
      assert n / 0x4_0000 == q2 / 0x40;
      assert q2 == (q2 / 0x40) * 0x40 + q2 % 0x40;
    } else if n >= 0x800 {
      assert n / 0x1000 == q2;
    }
  }

  /** Go's `[]byte(s)`: the UTF-8 bytes of the string. */
  function Utf8(s: string): (r: seq<byte>)
    ensures |s| <= |r| <= 4 * |s|
  {
    if |s| == 0 then [] else EncodeRune(s[0]) + Utf8(s[1..])
  }

  /** Go's `len(s)`: the byte length of a string. */
  function ByteLen(s: string): nat {
    |Utf8(s)|
  }

  /** Encoding distributes over concatenation, so byte lengths add up. */
  lemma {:induction false} Utf8Append(a: string, b: string)
    ensures Utf8(a + b) == Utf8(a) + Utf8(b)
  {
    if |a| > 0 {
      assert (a + b)[0] == a[0];
      assert (a + b)[1..] == a[1..] + b;
      Utf8Append(a[1..], b);
    } else {
      assert a + b == b;
    }
  }

  /** For ASCII text the bytes are the character codes, one per character. */
  lemma {:induction false} Utf8Ascii(s: string)
    requires forall i :: 0 <= i < |s| ==> (s[i] as int) < 0x80
    ensures |Utf8(s)| == |s|
    ensures forall i :: 0 <= i < |s| ==> Utf8(s)[i] == s[i] as int
  {
    if |s| > 0 {
      Utf8Ascii(s[1..]);
    }
  }
}
