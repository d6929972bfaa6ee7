/**
 * `bytes.decode("utf-8")` in Python's strict mode: decoding succeeds
 * exactly when the bytes are a concatenation of the well-formed UTF-8
 * sequences of the Unicode Standard (Table 3-7 of chapter 3), and fails
 * otherwise. Only the behaviour on ASCII bytes is proved here.
 */
module Utf8 {
  import opened Wrappers

  newtype byte = b: int | 0 <= b < 256

  predicate InRange(b: byte, lo: int, hi: int) { lo <= b as int <= hi }

  /** The scalar value that starts `s` and how many bytes encode it, when
      those bytes form a well-formed sequence; None otherwise. */
  function DecodeFirst(s: seq<byte>): (r: Option<(char, nat)>)
    requires |s| > 0
    ensures r.Some? ==> 1 <= r.value.1 <= |s|
    ensures s[0] < 0x80 ==> r == Some((s[0] as int as char, 1))
  {
    var b0 := s[0] as int;
    if b0 < 0x80 then Some((b0 as char, 1))
    else if 0xC2 <= b0 <= 0xDF then
      if |s| >= 2 && InRange(s[1], 0x80, 0xBF)
      then Some((((b0 - 0xC0) * 0x40 + (s[1] as int - 0x80)) as char, 2))
      else None
    else if 0xE0 <= b0 <= 0xEF then
      var lo := if b0 == 0xE0 then 0xA0 else 0x80;
      var hi := if b0 == 0xED then 0x9F else 0xBF;
      if |s| >= 3 && InRange(s[1], lo, hi) && InRange(s[2], 0x80, 0xBF)
      then
        var cp := (b0 - 0xE0) * 0x1000 + (s[1] as int - 0x80) * 0x40 + (s[2] as int - 0x80);
        assert cp < 0xD800 || 0xE000 <= cp < 0x10000 by {
          if b0 == 0xED { assert cp <= 0xD7FF; }
          else if b0 < 0xED { assert cp <= 0xCFFF; }
          else { assert cp >= 0xE000; }
        }
        Some((cp as char, 3))
      else None
    else if 0xF0 <= b0 <= 0xF4 then
      var lo := if b0 == 0xF0 then 0x90 else 0x80;
      var hi := if b0 == 0xF4 then 0x8F else 0xBF;
      if |s| >= 4 && InRange(s[1], lo, hi) && InRange(s[2], 0x80, 0xBF) && InRange(s[3], 0x80, 0xBF)
      then
        var cp := (b0 - 0xF0) * 0x40000 + (s[1] as int - 0x80) * 0x1000
                  + (s[2] as int - 0x80) * 0x40 + (s[3] as int - 0x80);
        Some((cp as char, 4))
      else None
    else None
  }

  /** The text the bytes encode, or None when they are not well-formed UTF-8
      (Python raises UnicodeDecodeError then). */
  function Decode(s: seq<byte>): (r: Option<string>)
    ensures r.Some? ==> |r.value| <= |s|
    decreases |s|
  {
    if s == [] then Some([])
    else
      match DecodeFirst(s)
      case None => None
      case Some((c, n)) =>
        match Decode(s[n..])
        case None => None
        case Some(t) => Some([c] + t)
  }

  predicate IsAscii(t: string) { forall i :: 0 <= i < |t| ==> t[i] as int < 0x80 }

  /** The ASCII encoding of an ASCII text: one byte per character. */
  function AsciiBytes(t: string): (s: seq<byte>)
    requires IsAscii(t)
    ensures |s| == |t| && forall i :: 0 <= i < |t| ==> s[i] as int == t[i] as int
  {
    seq(|t|, i requires 0 <= i < |t| => t[i] as int as byte)
  }

  /** ASCII text survives encoding and decoding unchanged. */
  lemma {:induction false} DecodeAscii(t: string)
    requires IsAscii(t)
    ensures Decode(AsciiBytes(t)) == Some(t)
    decreases |t|
  {
    if t != [] {
      var s := AsciiBytes(t);
      assert s[1..] == AsciiBytes(t[1..]);
      DecodeAscii(t[1..]);
      assert t == [t[0]] + t[1..];
    }
  }

  /** When the first `k` bytes are ASCII, a successful decode starts with
      the same `k` characters. */
  lemma {:induction false} DecodeKeepsAsciiPrefix(s: seq<byte>, k: nat)
    requires k <= |s| && forall i :: 0 <= i < k ==> s[i] < 0x80
    ensures Decode(s).Some? ==>
              k <= |Decode(s).value| && forall i :: 0 <= i < k ==> Decode(s).value[i] as int == s[i] as int
    decreases k
  {
    if k > 0 && Decode(s).Some? {
      DecodeKeepsAsciiPrefix(s[1..], k - 1);
      var t := Decode(s[1..]).value;
      assert Decode(s).value == [s[0] as int as char] + t;
    }
  }
}
