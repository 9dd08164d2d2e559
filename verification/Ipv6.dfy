/** Printing an IPv6 address and port: the first run of zero groups becomes "::". Reading the
    text by section 2.2 of RFC 4291 gives the groups back. */
module Ipv6 {
  type Group = n: nat | n < 0x1_0000

  // ---- Numbers ---------------------------------------------------------------------

  function DigitChar(d: nat): (c: char)
    requires d < 16
    ensures c != ':' && c != ']'
  {
    if d < 10 then (48 + d) as char else (87 + d) as char
  }

  function DigitValue(c: char): nat {
    if '0' <= c <= '9' then (c as int) - 48 else if 'a' <= c <= 'f' then (c as int) - 87 else 0
  }

  /** Neither a colon nor a closing bracket. */
  predicate Plain(s: string) { forall i | 0 <= i < |s| :: s[i] != ':' && s[i] != ']' }

  datatype Base = Decimal | Hex

  function Radix(base: Base): nat { if base == Decimal then 10 else 16 }

  /** The number without its last digit, that digit, and the number put together again. */
  function Quotient(n: nat, base: Base): nat { if base == Decimal then n / 10 else n / 16 }

  function Remainder(n: nat, base: Base): (d: nat)
    ensures d < Radix(base)
  {
    if base == Decimal then n % 10 else n % 16
  }

  function Together(q: nat, d: nat, base: Base): nat { if base == Decimal then q * 10 + d else q * 16 + d }

  /** A number written in the given base, without leading zeros. */
  function Digits(n: nat, base: Base): (s: string)
    ensures s != [] && Plain(s)
    decreases n
  {
    if n < Radix(base) then [DigitChar(n)] else Digits(Quotient(n, base), base) + [DigitChar(Remainder(n, base))]
  }

  /** Lower-case digits, and no leading zero except in "0". */
  lemma {:induction false} DigitsShape(n: nat, base: Base)
    ensures forall i | 0 <= i < |Digits(n, base)| ::
      Digits(n, base)[i] in if base == Decimal then "0123456789" else "0123456789abcdef"
    ensures Digits(n, base)[0] == '0' <==> n == 0
    ensures n == 0 ==> Digits(n, base) == "0"
    decreases n
  {
    DigitIs(Remainder(n, base));
    assert forall d | 0 <= d < 10 :: "0123456789"[d] == "0123456789abcdef"[d];
    if n >= Radix(base) {
      DigitsShape(Quotient(n, base), base);
    } else {
      DigitIs(n);
    }
  }

  lemma DigitIs(d: nat)
    requires d < 16
    ensures DigitChar(d) == "0123456789abcdef"[d]
  {
  }

  function Value(s: string, base: Base): nat {
    if s == [] then 0 else Together(Value(s[..|s| - 1], base), DigitValue(s[|s| - 1]), base)
  }

  lemma ValueSnoc(s: string, c: char, base: Base)
    ensures Value(s + [c], base) == Together(Value(s, base), DigitValue(c), base)
  {
    assert (s + [c])[..|s|] == s;
  }

  lemma {:induction false} ValueOfDigits(n: nat, base: Base)
    ensures Value(Digits(n, base), base) == n
    decreases n
  {
    if n < Radix(base) {
      ValueSnoc("", DigitChar(n), base);
      assert "" + [DigitChar(n)] == [DigitChar(n)];
    } else {
      var (q, r) := (Quotient(n, base), Remainder(n, base));
      ValueOfDigits(q, base);
      ValueSnoc(Digits(q, base), DigitChar(r), base);
    }
  }

  // ---- The text --------------------------------------------------------------------------

  /** Groups in hexadecimal with colons between them. */
  function Join(gs: seq<Group>): string {
    if gs == [] then ""
    else if |gs| == 1 then Digits(gs[0], Hex)
    else Join(gs[..|gs| - 1]) + ":" + Digits(gs[|gs| - 1], Hex)
  }

  /** Where the first run of zeros begins and ends. */
  function ZeroFrom(gs: seq<Group>, from: nat): (k: nat)
    requires from <= |gs|
    ensures from <= k <= |gs| && (k < |gs| ==> gs[k] == 0) && forall i | from <= i < k :: gs[i] != 0
    decreases |gs| - from
  {
    if from == |gs| || gs[from] == 0 then from else ZeroFrom(gs, from + 1)
  }

  function OtherFrom(gs: seq<Group>, from: nat): (k: nat)
    requires from <= |gs|
    ensures from <= k <= |gs| && (k < |gs| ==> gs[k] != 0) && forall i | from <= i < k :: gs[i] == 0
    decreases |gs| - from
  {
    if from == |gs| || gs[from] != 0 then from else OtherFrom(gs, from + 1)
  }

  function Text(gs: seq<Group>): string {
    var lo := ZeroFrom(gs, 0);
    if lo == |gs| then Join(gs) else Join(gs[..lo]) + "::" + Join(gs[OtherFrom(gs, lo)..])
  }

  lemma JoinNext(gs: seq<Group>, lo: nat, i: nat)
    requires lo <= i < |gs|
    ensures Join(gs[lo..i + 1]) == Join(gs[lo..i]) + (if i > lo then ":" else "") + Digits(gs[i], Hex)
  {
    var t := gs[lo..i + 1];
    assert t[..|t| - 1] == gs[lo..i] && t[|t| - 1] == gs[i];
  }

  /** What the loop has printed before group `i`. */
  ghost predicate Printed(os: string, gs: seq<Group>, i: nat, used: bool)
    requires i <= |gs|
  {
    var lo := ZeroFrom(gs, 0);
    PrintedAround(os, gs, i, used, lo, OtherFrom(gs, lo))
  }

  /** The same, with the first run of zeros from `lo` to `hi`. */
  ghost predicate PrintedAround(os: string, gs: seq<Group>, i: nat, used: bool, lo: nat, hi: nat)
    requires i <= |gs| && lo <= hi <= |gs|
  {
    if i <= lo then !used && os == "[" + Join(gs[0..i])
    else if i <= hi then !used && os == "[" + Join(gs[0..lo])
    else used && os == "[" + Join(gs[0..lo]) + "::" + Join(gs[hi..i])
  }

  /** One turn of the loop, in terms of what it appends. */
  function Appended(gs: seq<Group>, i: nat, used: bool): string
    requires i < |gs|
  {
    if gs[i] == 0 && !used then ""
    else (if i > 0 && gs[i - 1] == 0 && !used then ":" else "") + (if i > 0 then ":" else "") + Digits(gs[i], Hex)
  }

  lemma TurnBefore(os: string, gs: seq<Group>, i: nat, used: bool)
    requires i < ZeroFrom(gs, 0) && Printed(os, gs, i, used)
    ensures Printed(os + Appended(gs, i, used), gs, i + 1, used)
  {
    JoinNext(gs, 0, i);
  }

  lemma TurnWithin(os: string, gs: seq<Group>, i: nat, used: bool)
    requires ZeroFrom(gs, 0) <= i < OtherFrom(gs, ZeroFrom(gs, 0)) && Printed(os, gs, i, used)
    ensures Printed(os + Appended(gs, i, used), gs, i + 1, used) && gs[i] == 0
  {
    assert os + "" == os;
  }

  lemma GlueColons(f: string, d: string)
    ensures f + (":" + ":" + d) == f + "::" + d
  {
  }

  lemma GlueGroup(f: string, b: string, d: string)
    ensures f + b + ("" + ":" + d) == f + (b + ":" + d)
  {
  }

  lemma JoinOne(g: Group)
    ensures Join([g]) == Digits(g, Hex)
  {
  }

  lemma AppendedAt(gs: seq<Group>, i: nat, d: string)
    requires 0 < i < |gs| && gs[i] != 0 && gs[i - 1] == 0 && d == Digits(gs[i], Hex)
    ensures Appended(gs, i, false) == ":" + ":" + d
  {
  }

  lemma TurnAround(os: string, gs: seq<Group>, lo: nat, i: nat, a: string, d: string)
    requires lo < i < |gs| && PrintedAround(os, gs, i, false, lo, i) && a == ":" + ":" + d && d == Join([gs[i]])
    ensures PrintedAround(os + a, gs, i + 1, true, lo, i)
  {
    GlueColons(os, d);
    assert gs[i..i + 1] == [gs[i]];
  }

  lemma TurnAt(os: string, gs: seq<Group>, i: nat, used: bool)
    requires ZeroFrom(gs, 0) < i == OtherFrom(gs, ZeroFrom(gs, 0)) < |gs| && Printed(os, gs, i, used)
    ensures Printed(os + Appended(gs, i, used), gs, i + 1, true)
  {
    var d := Digits(gs[i], Hex);
    AppendedAt(gs, i, d);
    JoinOne(gs[i]);
    TurnAround(os, gs, ZeroFrom(gs, 0), i, Appended(gs, i, false), d);
  }

  lemma TurnAfter(os: string, gs: seq<Group>, i: nat, used: bool)
    requires ZeroFrom(gs, 0) < OtherFrom(gs, ZeroFrom(gs, 0)) < i < |gs| && Printed(os, gs, i, used)
    ensures Printed(os + Appended(gs, i, used), gs, i + 1, true)
  {
    var (lo, hi) := (ZeroFrom(gs, 0), OtherFrom(gs, ZeroFrom(gs, 0)));
    JoinNext(gs, hi, i);
    GlueGroup("[" + Join(gs[0..lo]) + "::", Join(gs[hi..i]), Digits(gs[i], Hex));
  }

  lemma OneTurn(os: string, gs: seq<Group>, i: nat, used: bool)
    requires i < |gs| && Printed(os, gs, i, used)
    ensures Printed(os + Appended(gs, i, used), gs, i + 1, used || (gs[i] != 0 && i > 0 && gs[i - 1] == 0))
  {
    if i < ZeroFrom(gs, 0) {
      TurnBefore(os, gs, i, used);
    } else if i < OtherFrom(gs, ZeroFrom(gs, 0)) {
      TurnWithin(os, gs, i, used);
    } else if i == OtherFrom(gs, ZeroFrom(gs, 0)) {
      TurnAt(os, gs, i, used);
    } else {
      TurnAfter(os, gs, i, used);
    }
  }

  lemma AllTurns(os: string, gs: seq<Group>, used: bool)
    requires gs != [] && Printed(os, gs, |gs|, used)
    ensures os + (if !used && gs[|gs| - 1] == 0 then "::" else "") == "[" + Text(gs)
  {
    var lo := ZeroFrom(gs, 0);
    if lo == |gs| {
      assert gs[0..|gs|] == gs && os + "" == os;
    } else {
      var (hi, front) := (OtherFrom(gs, lo), Join(gs[..lo]));
      assert gs[0..lo] == gs[..lo];
      if hi == |gs| {
        assert gs[hi..] == [];
        assert "[" + front + "::" == "[" + (front + "::" + "");
      } else {
        var back := Join(gs[hi..]);
        assert gs[hi..|gs|] == gs[hi..];
        assert "[" + front + "::" + back + "" == "[" + (front + "::" + back);
      }
    }
  }

  /** The body of the printing loop. */
  method PrintGroup(os0: string, addr: seq<Group>, i: nat, used: bool) returns (os: string, usedZeros: bool)
    requires i < |addr|
    ensures os == os0 + Appended(addr, i, used)
    ensures usedZeros == (used || (addr[i] != 0 && i > 0 && addr[i - 1] == 0))
  {
    os, usedZeros := os0, used;
    if addr[i] == 0 && !usedZeros {
      return;
    }
    var before, between := "", "";
    if i > 0 && addr[i - 1] == 0 && !usedZeros {
      before := ":";
      usedZeros := true;
    }
    if i > 0 {
      between := ":";
    }
    os := os + before + between + Digits(addr[i], Hex);
    Chain(os0, before, between, Digits(addr[i], Hex));
  }

  lemma Chain(s: string, a: string, b: string, c: string)
    ensures s + a + b + c == s + (a + b + c)
  {
  }

  method Insert(addr: seq<Group>, port: Group) returns (os: string)
    requires |addr| == 8
    ensures os == "[" + Text(addr) + "]:" + Digits(port, Decimal)
  {
    os := "[";
    var usedZeros := false;
    for i := 0 to 8
      invariant Printed(os, addr, i, usedZeros)
    {
      OneTurn(os, addr, i, usedZeros);
      os, usedZeros := PrintGroup(os, addr, i, usedZeros);
    }
    AllTurns(os, addr, usedZeros);
    if !usedZeros && addr[7] == 0 {
      os := os + "::";
    } else {
      assert os + "" == os;
    }
    os := os + "]:" + Digits(port, Decimal);
  }

  // ---- Reading it back --------------------------------------------------------------------

  /** The place of the last colon, or -1. */
  function LastColon(s: string): (k: int)
    ensures -1 <= k < |s| && (k >= 0 ==> s[k] == ':')
  {
    if s == [] then -1 else if s[|s| - 1] == ':' then |s| - 1 else LastColon(s[..|s| - 1])
  }

  /** Hexadecimal groups with colons between them; the empty text has none. */
  function Groups(s: string): seq<nat>
    decreases |s|
  {
    if s == [] then []
    else
      var k := LastColon(s);
      if k < 0 then [Value(s, Hex)] else Groups(s[..k]) + [Value(s[k + 1..], Hex)]
  }

  predicate DoubleAt(s: string, i: nat) { i + 1 < |s| && s[i] == ':' && s[i + 1] == ':' }

  /** The first "::", or the length of the text. */
  function FirstDouble(s: string, from: nat): (k: nat)
    requires from <= |s|
    ensures from <= k <= |s| && (k < |s| ==> DoubleAt(s, k))
    decreases |s| - from
  {
    if from == |s| || DoubleAt(s, from) then from else FirstDouble(s, from + 1)
  }

  function Zeros(n: int): seq<nat> {
    if n <= 0 then [] else seq(n, _ => 0)
  }

  /** As many zero groups in between as are missing from eight. */
  function Spread(front: seq<nat>, back: seq<nat>): seq<nat> {
    front + Zeros(8 - |front| - |back|) + back
  }

  datatype Halves = Whole | Halves(front: string, back: string)

  /** The text before and after the first "::". */
  function Halve(s: string): Halves {
    var k := FirstDouble(s, 0);
    if k == |s| then Whole else Halves(s[..k], s[k + 2..])
  }

  /** Section 2.2 of RFC 4291: "::" stands for the zero groups that are missing. */
  function Expand(s: string): seq<nat> {
    match Halve(s)
    case Whole => Groups(s)
    case Halves(front, back) => Spread(Groups(front), Groups(back))
  }

  lemma {:induction false} LastColonIs(s: string, k: int)
    requires -1 <= k < |s| && (k >= 0 ==> s[k] == ':') && forall i | k < i < |s| :: s[i] != ':'
    ensures LastColon(s) == k
    decreases |s|
  {
    if k + 1 < |s| {
      LastColonIs(s[..|s| - 1], k);
    }
  }

  lemma {:induction false} FirstDoubleIs(s: string, from: nat, k: nat)
    requires from <= k <= |s| && (k < |s| ==> DoubleAt(s, k)) && forall i | from <= i < k :: !DoubleAt(s, i)
    ensures FirstDouble(s, from) == k
    decreases |s| - from
  {
    if from < k {
      FirstDoubleIs(s, from + 1, k);
    }
  }

  lemma GroupsNext(s: string, f: string, d: string, gf: seq<nat>, v: nat)
    requires s == f + ":" + d && gf == Groups(f) && v == Value(d, Hex) && forall i | 0 <= i < |d| :: d[i] != ':'
    ensures Groups(s) == gf + [v]
  {
    LastColonIs(s, |f|);
    assert s[..|f|] == f && s[|f| + 1..] == d;
  }

  lemma {:induction false} GroupsOfJoin(gs: seq<Group>)
    ensures Groups(Join(gs)) == gs
  {
    if |gs| == 1 {
      var s := Digits(gs[0], Hex);
      LastColonIs(s, -1);
      ValueOfDigits(gs[0], Hex);
    } else if |gs| > 1 {
      var (front, last) := (gs[..|gs| - 1], gs[|gs| - 1]);
      GroupsOfJoin(front);
      ValueOfDigits(last, Hex);
      GroupsNext(Join(gs), Join(front), Digits(last, Hex), front, last);
    }
  }

  /** Joined groups hold no "::" and neither begin nor end with a colon. */
  ghost predicate Tight(s: string) {
    && (forall i :: !DoubleAt(s, i))
    && (s != [] ==> s[0] != ':' && s[|s| - 1] != ':')
  }

  lemma TightTogether(f: string, d: string)
    requires Tight(f) && f != [] && d != [] && forall i | 0 <= i < |d| :: d[i] != ':'
    ensures Tight(f + ":" + d)
  {
    var s := f + ":" + d;
    forall i: nat ensures !DoubleAt(s, i) {
      if i + 1 < |f| {
        assert !DoubleAt(f, i);
      }
    }
  }

  lemma {:induction false} JoinTight(gs: seq<Group>)
    ensures Tight(Join(gs)) && (gs != [] ==> Join(gs) != []) && forall i | 0 <= i < |Join(gs)| :: Join(gs)[i] != ']'
  {
    if |gs| > 1 {
      var (f, d) := (Join(gs[..|gs| - 1]), Digits(gs[|gs| - 1], Hex));
      JoinTight(gs[..|gs| - 1]);
      TightTogether(f, d);
    }
  }

  lemma OneDouble(f: string, b: string, i: nat)
    requires Tight(f) && Tight(b)
    ensures DoubleAt(f + "::" + b, i) <==> i == |f|
  {
    var s := f + "::" + b;
    if i + 1 < |f| {
      assert s[i] == f[i] && s[i + 1] == f[i + 1] && !DoubleAt(f, i);
    } else if |f| + 2 <= i && i + 1 < |s| {
      var j := i - |f| - 2;
      assert s[i] == b[j] && s[i + 1] == b[j + 1] && !DoubleAt(b, j);
    }
  }

  /** "::" occurs at most once: where the first run of zeros was. */
  lemma TextDouble(gs: seq<Group>, i: nat)
    ensures DoubleAt(Text(gs), i) <==> ZeroFrom(gs, 0) < |gs| && i == |Join(gs[..ZeroFrom(gs, 0)])|
  {
    var lo := ZeroFrom(gs, 0);
    if lo < |gs| {
      JoinTight(gs[..lo]);
      JoinTight(gs[OtherFrom(gs, lo)..]);
      OneDouble(Join(gs[..lo]), Join(gs[OtherFrom(gs, lo)..]), i);
    } else {
      JoinTight(gs);
    }
  }

  lemma HalvesAre(f: string, b: string)
    requires Tight(f) && Tight(b)
    ensures Halve(f + "::" + b) == Halves(f, b)
  {
    var s := f + "::" + b;
    forall i: nat ensures DoubleAt(s, i) <==> i == |f| {
      OneDouble(f, b, i);
    }
    FirstDoubleIs(s, 0, |f|);
    assert f == s[..|f|] && b == s[|f| + 2..];
  }

  lemma ExpandHalves(s: string, f: string, b: string, gf: seq<nat>, gb: seq<nat>)
    requires Halve(s) == Halves(f, b) && gf == Groups(f) && gb == Groups(b)
    ensures Expand(s) == Spread(gf, gb)
  {
  }

  /** Front, zeros and back make the address. */
  lemma Assembled(gs: seq<Group>, lo: nat, hi: nat)
    requires lo <= hi <= |gs| == 8 && forall i | lo <= i < hi :: gs[i] == 0
    ensures Spread(gs[..lo], gs[hi..]) == gs
  {
    assert |Zeros(hi - lo)| == hi - lo;
  }

  lemma ExpandJoined(gf: seq<Group>, gb: seq<Group>)
    ensures Expand(Join(gf) + "::" + Join(gb)) == Spread(gf, gb)
  {
    JoinTight(gf);
    JoinTight(gb);
    GroupsOfJoin(gf);
    GroupsOfJoin(gb);
    var (f, b) := (Join(gf), Join(gb));
    HalvesAre(f, b);
    ExpandHalves(f + "::" + b, f, b, gf, gb);
  }

  lemma ExpandUnbroken(gs: seq<Group>)
    ensures Expand(Join(gs)) == gs
  {
    JoinTight(gs);
    FirstDoubleIs(Join(gs), 0, |Join(gs)|);
    GroupsOfJoin(gs);
  }

  lemma ExpandBroken(gs: seq<Group>, lo: nat, hi: nat)
    requires lo <= hi <= |gs| == 8 && forall i | lo <= i < hi :: gs[i] == 0
    ensures Expand(Join(gs[..lo]) + "::" + Join(gs[hi..])) == gs
  {
    ExpandJoined(gs[..lo], gs[hi..]);
    Assembled(gs, lo, hi);
  }

  /** Reading the printed text gives the eight groups back. */
  lemma ExpandOfText(gs: seq<Group>)
    requires |gs| == 8
    ensures Expand(Text(gs)) == gs
  {
    var lo := ZeroFrom(gs, 0);
    if lo == |gs| {
      ExpandUnbroken(gs);
    } else {
      ExpandBroken(gs, lo, OtherFrom(gs, lo));
    }
  }

  /** Text up to a bracket and text behind it can be told apart. */
  lemma SplitAtBracket(s: string, u: string, t: string, v: string)
    requires s + "]" + u == t + "]" + v
    requires (forall i | 0 <= i < |s| :: s[i] != ']') && forall i | 0 <= i < |t| :: t[i] != ']'
    ensures s == t && u == v
  {
    var x := s + "]" + u;
    ToBracketIs(s, u);
    ToBracketIs(t, v);
    assert s == x[..|s|] && t == x[..|s|];
    assert u == x[|s| + 1..] && v == x[|s| + 1..];
  }

  lemma Rebracket(s: string, d: string)
    ensures "[" + s + "]:" + d == ("[" + s) + "]" + (":" + d)
  {
  }

  /** So different addresses or ports print differently. */
  lemma PrintingIsInjective(a: seq<Group>, p: Group, b: seq<Group>, q: Group)
    requires |a| == 8 && |b| == 8
    requires "[" + Text(a) + "]:" + Digits(p, Decimal) == "[" + Text(b) + "]:" + Digits(q, Decimal)
    ensures a == b && p == q
  {
    var (s, t, d, e) := (Text(a), Text(b), Digits(p, Decimal), Digits(q, Decimal));
    TextHasNoBracket(a);
    TextHasNoBracket(b);
    Rebracket(s, d);
    Rebracket(t, e);
    SplitAtBracket("[" + s, ":" + d, "[" + t, ":" + e);
    assert s == ("[" + s)[1..] && t == ("[" + t)[1..] && d == (":" + d)[1..] && e == (":" + e)[1..];
    ExpandOfText(a);
    ExpandOfText(b);
    ValueOfDigits(p, Decimal);
    ValueOfDigits(q, Decimal);
  }

  /** How many characters come before the first closing bracket. */
  function ToBracket(s: string): nat {
    if s == [] || s[0] == ']' then 0 else 1 + ToBracket(s[1..])
  }

  lemma {:induction false} ToBracketIs(s: string, u: string)
    requires forall i | 0 <= i < |s| :: s[i] != ']'
    ensures ToBracket(s + "]" + u) == |s|
  {
    if s != [] {
      ToBracketIs(s[1..], u);
      assert (s + "]" + u)[1..] == s[1..] + "]" + u;
    }
  }

  lemma TextHasNoBracket(gs: seq<Group>)
    ensures forall i | 0 <= i < |Text(gs)| :: Text(gs)[i] != ']'
  {
    var lo := ZeroFrom(gs, 0);
    JoinTight(gs);
    JoinTight(gs[..lo]);
    JoinTight(gs[OtherFrom(gs, lo)..]);
  }
}
