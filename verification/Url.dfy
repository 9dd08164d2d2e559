/** Percent-encoding of byte strings, and its inverse. Both copy into a buffer only from
    the first character that changes on. */
module Urls {
  import opened Chunks
  import opened Options

  const SPACE: Byte := 32
  const PERCENT: Byte := 37
  const PLUS: Byte := 43

  /** The table of characters that stand for themselves; '=' (61) is among them. */
  predicate Unreserved(c: Byte) {
    || c == 45 || c == 46 || c == 61 || c == 95 || c == 126
    || 48 <= c <= 57 || 65 <= c <= 90 || 97 <= c <= 122
  }

  function HexDigit(n: nat): Byte
    requires n < 16
  {
    if n < 10 then 48 + n else 55 + n
  }

  predicate IsHexDigit(c: Byte) { 48 <= c <= 57 || 65 <= c <= 70 || 97 <= c <= 102 }

  function HexValue(c: Byte): (n: nat)
    ensures n < 16
  {
    if 48 <= c <= 57 then c - 48 else if 65 <= c <= 70 then c - 55 else if 97 <= c <= 102 then c - 87 else 0
  }

  /** The same tables in characters. */
  lemma Tables(c: Byte)
    ensures Unreserved(c) <==> var ch := c as char;
      '0' <= ch <= '9' || 'A' <= ch <= 'Z' || 'a' <= ch <= 'z' || ch in "-.=_~"
    ensures SPACE as char == ' ' && PERCENT as char == '%' && PLUS as char == '+'
  {
    assert c as char in "-.=_~" <==> c == 45 || c == 46 || c == 61 || c == 95 || c == 126;
  }

  lemma HexDigits(c: Byte)
    ensures IsHexDigit(c) <==> var ch := c as char; '0' <= ch <= '9' || 'A' <= ch <= 'F' || 'a' <= ch <= 'f'
    ensures IsHexDigit(c) ==>
      c as char == "0123456789ABCDEF"[HexValue(c)] || c as char == "0123456789abcdef"[HexValue(c)]
    ensures c < 16 ==> HexDigit(c) as char == "0123456789ABCDEF"[c]
  {
  }

  /** One character encoded. */
  function Escape(c: Byte, plus: bool): seq<Byte> {
    if Unreserved(c) then [c]
    else if c == SPACE && plus then [PLUS]
    else [PERCENT, HexDigit(c / 16), HexDigit(c % 16)]
  }

  function Encode(s: seq<Byte>, plus: bool): seq<Byte> {
    if s == [] then [] else Escape(s[0], plus) + Encode(s[1..], plus)
  }

  /** An escape at the start: '%' and two hexadecimal digits. */
  predicate Escaped(s: seq<Byte>) {
    |s| >= 3 && s[0] == PERCENT && IsHexDigit(s[1]) && IsHexDigit(s[2])
  }

  /** How many characters the first decoded one takes, and what it is. */
  function Width(s: seq<Byte>): (n: nat)
    requires s != []
    ensures 0 < n <= |s|
  {
    if Escaped(s) then 3 else 1
  }

  function Head(s: seq<Byte>, plus: bool): Byte
    requires s != []
  {
    if s[0] == PLUS && plus then SPACE
    else if Escaped(s) then HexValue(s[1]) * 16 + HexValue(s[2])
    else s[0]
  }

  function Decode(s: seq<Byte>, plus: bool): seq<Byte> {
    if s == [] then [] else [Head(s, plus)] + Decode(s[Width(s)..], plus)
  }

  lemma Regroup(a: seq<Byte>, b: seq<Byte>, c: seq<Byte>)
    ensures a + (b + c) == a + b + c
  {
  }

  lemma {:induction false} EncodeSnoc(s: seq<Byte>, c: Byte, plus: bool)
    ensures Encode(s + [c], plus) == Encode(s, plus) + Escape(c, plus)
  {
    if s == [] {
      assert ([c])[1..] == [];
    } else {
      EncodeSnoc(s[1..], c, plus);
      assert (s + [c])[1..] == s[1..] + [c];
      Regroup(Escape(s[0], plus), Encode(s[1..], plus), Escape(c, plus));
    }
  }

  lemma EncodeNext(str: seq<Byte>, i: nat, plus: bool)
    requires i < |str|
    ensures Encode(str[..i + 1], plus) == Encode(str[..i], plus) + Escape(str[i], plus)
  {
    EncodeSnoc(str[..i], str[i], plus);
    assert str[..i + 1] == str[..i] + [str[i]];
  }

  /** The output so far: the buffer, or the input itself while nothing has changed. */
  function Output(ss: Option<seq<Byte>>, str: seq<Byte>, i: nat): seq<Byte>
    requires i <= |str|
  {
    if ss.Some? then ss.value else str[..i]
  }

  lemma OutputNext(ss: Option<seq<Byte>>, str: seq<Byte>, i: nat)
    requires i < |str|
    ensures Output(if ss.Some? then Some(ss.value + [str[i]]) else None, str, i + 1) == Output(ss, str, i) + [str[i]]
  {
  }

  /** The encoder with its late buffer computes the character-by-character encoding. */
  method UrlEncode(str: seq<Byte>, plus: bool) returns (r: seq<Byte>)
    ensures r == Encode(str, plus)
  {
    var ss: Option<seq<Byte>> := None;
    ghost var done: seq<Byte> := [];
    for i := 0 to |str|
      invariant done == Output(ss, str, i) && done == Encode(str[..i], plus)
    {
      EncodeNext(str, i, plus);
      OutputNext(ss, str, i);
      done := done + Escape(str[i], plus);
      if !Unreserved(str[i]) {
        var out := Output(ss, str, i);
        if str[i] == SPACE && plus {
          ss := Some(out + [PLUS]);
        } else {
          ss := Some(out + [PERCENT, HexDigit(str[i] / 16), HexDigit(str[i] % 16)]);
        }
      } else if ss.Some? {
        ss := Some(ss.value + [str[i]]);
      }
    }
    assert str[..|str|] == str;
    return Output(ss, str, |str|);
  }

  /** The escape at place `i`, and the character decoded there. */
  predicate EscapedAt(str: seq<Byte>, i: nat) {
    i + 2 < |str| && str[i] == PERCENT && IsHexDigit(str[i + 1]) && IsHexDigit(str[i + 2])
  }

  function HeadAt(str: seq<Byte>, i: nat, plus: bool): Byte
    requires i < |str|
  {
    if str[i] == PLUS && plus then SPACE
    else if EscapedAt(str, i) then HexValue(str[i + 1]) * 16 + HexValue(str[i + 2])
    else str[i]
  }

  lemma DecodeAt(str: seq<Byte>, i: nat, plus: bool)
    requires i < |str|
    ensures var next := if EscapedAt(str, i) then i + 3 else i + 1;
      Decode(str[i..], plus) == [HeadAt(str, i, plus)] + Decode(str[next..], plus)
  {
    var rest := str[i..];
    assert Escaped(rest) == EscapedAt(str, i) && Head(rest, plus) == HeadAt(str, i, plus);
    assert rest[Width(rest)..] == str[if EscapedAt(str, i) then i + 3 else i + 1..];
  }

  /** What is decoded so far, and what is still to come, make the whole. */
  ghost predicate Splits(all: seq<Byte>, done: seq<Byte>, rest: seq<Byte>) { all == done + rest }

  lemma SplitsOn(all: seq<Byte>, done: seq<Byte>, c: Byte, rest: seq<Byte>)
    requires Splits(all, done, [c] + rest)
    ensures Splits(all, done + [c], rest)
  {
  }

  /** The body of the decoder's loop, at place `i`. */
  method DecodeNext(str: seq<Byte>, plus: bool, ss: Option<seq<Byte>>, i: nat) returns (ss': Option<seq<Byte>>, i': nat)
    requires i < |str|
    ensures i' == (if EscapedAt(str, i) then i + 3 else i + 1) <= |str|
    ensures Output(ss', str, i') == Output(ss, str, i) + [HeadAt(str, i, plus)]
  {
    OutputNext(ss, str, i);
    ss' := ss;
    if str[i] == PLUS && plus {
      ss', i' := Some(Output(ss, str, i) + [SPACE]), i + 1;
    } else if str[i] == PERCENT && i + 2 < |str| && IsHexDigit(str[i + 1]) && IsHexDigit(str[i + 2]) {
      ss' := Some(Output(ss, str, i) + [HexValue(str[i + 1]) * 16 + HexValue(str[i + 2])]);
      i' := i + 3;
    } else {
      if ss.Some? {
        ss' := Some(ss.value + [str[i]]);
      }
      i' := i + 1;
    }
  }

  /** So does the decoder. */
  method UrlDecode(str: seq<Byte>, plus: bool) returns (r: seq<Byte>)
    ensures r == Decode(str, plus)
  {
    var ss: Option<seq<Byte>> := None;
    var i: nat := 0;
    ghost var (all, rest) := (Decode(str, plus), Decode(str, plus));
    assert str[0..] == str;
    while i < |str|
      invariant i <= |str| && Splits(all, Output(ss, str, i), rest) && rest == Decode(str[i..], plus)
      decreases |str| - i
    {
      ghost var (done, c) := (Output(ss, str, i), HeadAt(str, i, plus));
      DecodeAt(str, i, plus);
      ss, i := DecodeNext(str, plus, ss, i);
      rest := Decode(str[i..], plus);
      SplitsOn(all, done, c, rest);
    }
    assert str[..|str|] == str;
    return Output(ss, str, |str|);
  }

  lemma EscapeDecodes(c: Byte, e: bool, d: bool, rest: seq<Byte>)
    ensures Decode(Escape(c, e) + rest, d) == [if c == SPACE && e && !d then PLUS else c] + Decode(rest, d)
  {
    var s := Escape(c, e) + rest;
    if Unreserved(c) || (c == SPACE && e) {
      assert s[1..] == rest;
    } else {
      assert HexValue(HexDigit(c / 16)) == c / 16 && HexValue(HexDigit(c % 16)) == c % 16;
      assert Escaped(s) && s[3..] == rest;
    }
  }

  /** An escape in digits of either case stands for one character; a percent sign that starts
      none, and a plus sign if not asked for, for themselves. */
  lemma DecodeHead(c: Byte, hi: Byte, lo: Byte, rest: seq<Byte>, plus: bool)
    requires c < 16 * 16 && IsHexDigit(hi) && IsHexDigit(lo) && HexValue(hi) == c / 16 && HexValue(lo) == c % 16
    ensures Decode([PERCENT, hi, lo] + rest, plus) == [c] + Decode(rest, plus)
    ensures !Escaped([PERCENT] + rest) ==> Decode([PERCENT] + rest, plus) == [PERCENT] + Decode(rest, plus)
    ensures Decode([PLUS] + rest, plus) == [if plus then SPACE else PLUS] + Decode(rest, plus)
  {
    assert ([PERCENT, hi, lo] + rest)[3..] == rest;
    assert ([PERCENT] + rest)[1..] == rest && ([PLUS] + rest)[1..] == rest;
  }

  /** Spaces turned into plus signs. */
  function Plussed(s: seq<Byte>, on: bool): seq<Byte> {
    seq(|s|, i requires 0 <= i < |s| => if s[i] == SPACE && on then PLUS else s[i])
  }

  lemma {:induction false} DecodeOfEncode(s: seq<Byte>, e: bool, d: bool)
    ensures Decode(Encode(s, e), d) == Plussed(s, e && !d)
  {
    if s != [] {
      DecodeOfEncode(s[1..], e, d);
      EscapeDecodes(s[0], e, d, Encode(s[1..], e));
    }
  }

  /** Decoding undoes encoding, exactly unless a space became a plus sign that the decoder
      does not read as one; so always when both use the same flag. */
  lemma {:induction false} RoundTrip(s: seq<Byte>, e: bool, d: bool)
    ensures Decode(Encode(s, e), d) == s <==> !(e && !d && SPACE in s)
  {
    DecodeOfEncode(s, e, d);
    if e && !d && SPACE in s {
      var i :| 0 <= i < |s| && s[i] == SPACE;
      assert Plussed(s, e && !d)[i] != s[i];
    }
  }

  /** Characters of the table, escapes in upper-case digits and, if allowed, plus signs. */
  predicate WellFormed(s: seq<Byte>, plus: bool) {
    if s == [] then true
    else if s[0] == PERCENT then
      |s| >= 3 && (forall k | 1 <= k < 3 :: IsHexDigit(s[k]) && s[k] <= 70) && WellFormed(s[3..], plus)
    else (Unreserved(s[0]) || (s[0] == PLUS && plus)) && WellFormed(s[1..], plus)
  }

  lemma {:induction false} EncodeWellFormed(s: seq<Byte>, plus: bool)
    ensures WellFormed(Encode(s, plus), plus)
  {
    if s != [] {
      EncodeWellFormed(s[1..], plus);
      var (e, rest) := (Encode(s, plus), Encode(s[1..], plus));
      assert e[|Escape(s[0], plus)|..] == rest;
    }
  }

  /** What is not in the table, nor '%' or '+', never occurs in encoded text. */
  lemma {:induction false} EncodeAvoids(s: seq<Byte>, plus: bool, c: Byte)
    requires !Unreserved(c) && c != PERCENT && c != PLUS
    ensures c !in Encode(s, plus)
  {
    if s != [] {
      EncodeAvoids(s[1..], plus, c);
    }
  }
}
