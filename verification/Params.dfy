/** Form and cookie parameters of a request: the parsing loop, what it makes of joined
    key-value pairs, and parameters that are parsed only when first asked for. */
module Params {
  import opened Chunks
  import opened Options
  import opened Urls

  type Text = seq<Byte>

  const EQUALS: Byte := 61
  const AMPERSAND: Byte := 38
  const SEMICOLON: Byte := 59

  datatype Pair = Pair(key: Text, value: Text)

  /** The first place of `c` from `from` on, or the length if there is none. */
  function Find(s: Text, c: Byte, from: nat): (k: nat)
    requires from <= |s|
    ensures from <= k <= |s| && (k < |s| ==> s[k] == c)
    decreases |s| - from
  {
    if from == |s| || s[from] == c then from else Find(s, c, from + 1)
  }

  lemma {:induction false} FindIs(s: Text, c: Byte, from: nat, k: nat)
    requires from <= k <= |s| && (k < |s| ==> s[k] == c) && forall i | from <= i < k :: s[i] != c
    ensures Find(s, c, from) == k
    decreases |s| - from
  {
    if from < k {
      FindIs(s, c, from + 1, k);
    }
  }

  lemma {:induction false} FindSkips(s: Text, c: Byte, from: nat)
    requires from <= |s|
    ensures c !in s[from..Find(s, c, from)]
    decreases |s| - from
  {
    if from < |s| && s[from] != c {
      FindSkips(s, c, from + 1);
    }
  }

  predicate Blank(c: Byte) { c == 32 || c == 9 || c == 13 || c == 10 }

  /** Which characters these are. */
  lemma Characters(c: Byte)
    ensures Blank(c) <==> c as char in " \t\r\n"
    ensures Lower(c) == if 'A' <= c as char <= 'Z' then c - ('A' as int) + ('a' as int) else c
    ensures EQUALS as char == '=' && AMPERSAND as char == '&' && SEMICOLON as char == ';'
  {
    assert c as char in " \t\r\n" <==> c == 32 || c == 9 || c == 13 || c == 10;
  }

  /** Without blanks at either end. */
  function Trim(s: Text): (r: Text)
    ensures r != [] ==> !Blank(r[0]) && !Blank(r[|r| - 1])
  {
    if s == [] then []
    else if Blank(s[0]) then Trim(s[1..])
    else if Blank(s[|s| - 1]) then Trim(s[..|s| - 1])
    else s
  }

  /** Trimming cuts from the first character that is not blank to the last one. */
  lemma {:induction false} TrimCuts(s: Text, lo: nat, hi: nat)
    requires lo < hi <= |s| && !Blank(s[lo]) && !Blank(s[hi - 1])
    requires (forall i | 0 <= i < lo :: Blank(s[i])) && forall i | hi <= i < |s| :: Blank(s[i])
    ensures Trim(s) == s[lo..hi]
    decreases |s|
  {
    if lo > 0 {
      TrimCuts(s[1..], lo - 1, hi - 1);
      assert s[1..][lo - 1..hi - 1] == s[lo..hi];
    } else if hi < |s| {
      TrimCuts(s[..|s| - 1], lo, hi);
      assert s[..|s| - 1][lo..hi] == s[lo..hi];
    }
  }

  lemma {:induction false} TrimBlank(s: Text)
    requires forall i | 0 <= i < |s| :: Blank(s[i])
    ensures Trim(s) == []
  {
    if s != [] {
      TrimBlank(s[1..]);
    }
  }

  function Lower(c: Byte): Byte { if 65 <= c <= 90 then c + 32 else c }

  /** What `strcasecmp` sees of a key: up to a NUL, in lower case. */
  function Fold(key: Text): Text {
    if key == [] || key[0] == 0 then [] else [Lower(key[0])] + Fold(key[1..])
  }

  lemma {:induction false} FoldAt(key: Text, n: nat, i: nat)
    requires n <= |key| && (n < |key| ==> key[n] == 0) && (forall k | 0 <= k < n :: key[k] != 0) && i < n
    ensures |Fold(key)| == n && Fold(key)[i] == Lower(key[i])
    decreases |key|
  {
    if n > 1 {
      FoldAt(key[1..], n - 1, if i > 0 then i - 1 else 0);
    }
  }

  function Name(key: Text, trim: bool): Text { Fold(if trim then Trim(key) else key) }

  /** The first raw pair of a text, and the text behind its separator if it has one. */
  datatype Found = Nothing | Last(pair: Pair) | More(pair: Pair, rest: Text)

  /** A key goes up to the next equals sign, a value up to the next separator behind it. */
  function First(s: Text, sep: Byte): (f: Found)
    requires sep != EQUALS
    ensures f.More? ==> |f.rest| < |s|
  {
    var k := Find(s, EQUALS, 0);
    if k == |s| then Nothing
    else
      var p := Find(s, sep, k);
      if p == |s| then Last(Pair(s[..k], s[k + 1..p])) else More(Pair(s[..k], s[k + 1..p]), s[p + 1..])
  }

  /** The raw pairs in a text. */
  function Pairs(s: Text, sep: Byte): seq<Pair>
    requires sep != EQUALS
    decreases |s|
  {
    match First(s, sep)
    case Nothing => []
    case Last(p) => [p]
    case More(p, rest) => [p] + Pairs(rest, sep)
  }

  /** `std::map::insert`: a key that is there already stays as it is. */
  function Insert(m: map<Text, Text>, k: Text, v: Text): map<Text, Text> {
    if k in m then m else m[k := v]
  }

  function InsertAll(m: map<Text, Text>, ps: seq<Pair>, trim: bool): map<Text, Text>
    decreases |ps|
  {
    if ps == [] then m
    else InsertAll(Insert(m, Name(ps[0].key, trim), Decode(ps[0].value, true)), ps[1..], trim)
  }

  lemma {:induction false} FindShift(s: Text, d: nat, c: Byte, from: nat)
    requires d + from <= |s|
    ensures Find(s, c, d + from) == d + Find(s[d..], c, from)
    decreases |s| - from
  {
    if d + from < |s| {
      assert s[d + from] == s[d..][from];
      if s[d + from] != c {
        FindShift(s, d, c, from + 1);
      }
    }
  }

  lemma FirstIs(t: Text, sep: Byte, k: nat, p: nat, pair: Pair, rest: Text)
    requires sep != EQUALS && k == Find(t, EQUALS, 0) < |t| && p == Find(t, sep, k)
    requires pair == Pair(t[..k], t[k + 1..p]) && (p < |t| ==> rest == t[p + 1..])
    ensures First(t, sep) == if p == |t| then Last(pair) else More(pair, rest)
  {
  }

  lemma SameSlice(s: Text, d: nat, lo: nat, hi: nat)
    requires d + lo <= d + hi <= |s|
    ensures s[d..][lo..hi] == s[d + lo..d + hi]
  {
  }

  /** One turn of the loop finds the first pair of what is left. */
  lemma FirstFrom(s: Text, d: nat, sep: Byte, k: nat, p: nat, rest: Text)
    requires d <= |s| && sep != EQUALS && k == Find(s, EQUALS, d) < |s| && p == Find(s, sep, k)
    requires p < |s| ==> rest == s[p + 1..]
    ensures First(s[d..], sep) == if p == |s| then Last(Pair(s[d..k], s[k + 1..p]))
                                  else More(Pair(s[d..k], s[k + 1..p]), rest)
  {
    FindShift(s, d, EQUALS, 0);
    FindShift(s, d, sep, k - d);
    SameSlice(s, d, 0, k - d);
    SameSlice(s, d, k - d + 1, p - d);
    assert p < |s| ==> s[d..][p - d + 1..] == s[p + 1..];
    FirstIs(s[d..], sep, k - d, p - d, Pair(s[d..k], s[k + 1..p]), rest);
  }

  lemma NoneFound(s: Text, d: nat, sep: Byte)
    requires d <= |s| && sep != EQUALS && Find(s, EQUALS, d) == |s|
    ensures First(s[d..], sep) == Nothing
  {
    FindShift(s, d, EQUALS, 0);
  }

  lemma InsertFirst(m: map<Text, Text>, p: Pair, rest: seq<Pair>, trim: bool)
    ensures InsertAll(m, [p] + rest, trim) == InsertAll(Insert(m, Name(p.key, trim), Decode(p.value, true)), rest, trim)
  {
    assert ([p] + rest)[1..] == rest;
  }

  /** Inserting what is left of the text from `pos` on will give `all`. */
  ghost predicate Parsing(all: map<Text, Text>, r: map<Text, Text>, str: Text, pos: nat, sep: Byte, trim: bool)
    requires sep != EQUALS
  {
    pos <= |str| && all == InsertAll(r, Pairs(str[pos..], sep), trim)
  }

  lemma ParsedOne(all: map<Text, Text>, r: map<Text, Text>, str: Text, last: nat, key: nat, pos: nat, sep: Byte,
                  trim: bool)
    requires sep != EQUALS && Parsing(all, r, str, last, sep, trim)
    requires key == Find(str, EQUALS, last) < |str| && pos == Find(str, sep, key)
    ensures var r' := Insert(r, Name(str[last..key], trim), Decode(str[key + 1..pos], true));
      if pos == |str| then all == r' else Parsing(all, r', str, pos + 1, sep, trim)
  {
    var (p, rest) := (Pair(str[last..key], str[key + 1..pos]), if pos == |str| then [] else str[pos + 1..]);
    FirstFrom(str, last, sep, key, pos, rest);
    if pos == |str| {
      InsertFirst(r, p, [], trim);
      assert [p] + [] == [p];
    } else {
      InsertFirst(r, p, Pairs(rest, sep), trim);
    }
  }

  lemma ParsedAll(all: map<Text, Text>, r: map<Text, Text>, str: Text, pos: nat, sep: Byte, trim: bool)
    requires sep != EQUALS && Parsing(all, r, str, pos, sep, trim) && Find(str, EQUALS, pos) == |str|
    ensures all == r
  {
    NoneFound(str, pos, sep);
  }

  /** The rest of a turn: the value behind the equals sign at `key`. */
  method ParseOne(str: Text, m: map<Text, Text>, last: nat, key: nat, sep: Byte, trim: bool, ghost all: map<Text, Text>)
    returns (r: map<Text, Text>, pos: nat)
    requires sep != EQUALS && Parsing(all, m, str, last, sep, trim) && key == Find(str, EQUALS, last) < |str|
    ensures last < pos <= |str| && if pos == |str| then r == all else Parsing(all, r, str, pos + 1, sep, trim)
  {
    pos := Find(str, sep, key);
    ParsedOne(all, m, str, last, key, pos, sep, trim);
    var value := UrlDecode(str[key + 1..pos], true);
    r := Insert(m, Name(str[last..key], trim), value);
  }

  /** A turn of the loop: the next pair, if there is one. */
  method ParseTurn(str: Text, m: map<Text, Text>, from: nat, sep: Byte, trim: bool, ghost all: map<Text, Text>)
    returns (r: map<Text, Text>, pos: nat, done: bool)
    requires sep != EQUALS && Parsing(all, m, str, from, sep, trim)
    ensures if done then r == all else from < pos <= |str| && Parsing(all, r, str, pos, sep, trim)
  {
    var key := Find(str, EQUALS, from);
    if key == |str| {
      ParsedAll(all, m, str, from, sep, trim);
      return m, from, true;
    }
    r, pos := ParseOne(str, m, from, key, sep, trim, all);
    done := pos == |str|;
    if !done {
      pos := pos + 1;
    }
  }

  /** The parsing loop, which inserts `all` there is to insert. */
  method ParseLoop(str: Text, m: map<Text, Text>, sep: Byte, trim: bool, ghost all: map<Text, Text>)
    returns (r: map<Text, Text>)
    requires sep != EQUALS && Parsing(all, m, str, 0, sep, trim)
    ensures r == all
  {
    r := m;
    var pos: nat, done := 0, false;
    while !done
      invariant pos <= |str| || done
      invariant if done then r == all else Parsing(all, r, str, pos, sep, trim)
      decreases if done then 0 else |str| - pos + 1
    {
      r, pos, done := ParseTurn(str, r, pos, sep, trim, all);
    }
  }

  method ParseParam(str: Text, m: map<Text, Text>, sep: Byte, trim: bool) returns (r: map<Text, Text>)
    requires sep != EQUALS
    ensures r == InsertAll(m, Pairs(str, sep), trim)
  {
    assert str[0..] == str;
    r := ParseLoop(str, m, sep, trim, InsertAll(m, Pairs(str, sep), trim));
  }

  // ---- Joining and parsing ---------------------------------------------------------

  function Item(p: Pair): Text { p.key + [EQUALS] + p.value }

  function Join(ps: seq<Pair>, sep: Byte): Text {
    if ps == [] then [] else if |ps| == 1 then Item(ps[0]) else Item(ps[0]) + [sep] + Join(ps[1..], sep)
  }

  ghost predicate Plain(ps: seq<Pair>) { forall i | 0 <= i < |ps| :: EQUALS !in ps[i].key }

  lemma FirstPair(p: Pair, tail: Text, sep: Byte)
    requires sep != EQUALS && EQUALS !in p.key && sep !in p.value && (tail != [] ==> tail[0] == sep)
    ensures Pairs(Item(p) + tail, sep) == [p] + if tail == [] then [] else Pairs(tail[1..], sep)
  {
    var s := Item(p) + tail;
    var (k, e) := (|p.key|, |Item(p)|);
    FindIs(s, EQUALS, 0, k);
    FindIs(s, sep, k, e);
    assert s[..k] == p.key && s[k + 1..e] == p.value;
    assert tail != [] ==> s[e + 1..] == tail[1..];
    assert First(s, sep) == if tail == [] then Last(p) else More(p, tail[1..]);
  }

  lemma {:induction false} JoinParses(ps: seq<Pair>, sep: Byte)
    requires sep != EQUALS && Plain(ps) && forall i | 0 <= i < |ps| :: sep !in ps[i].value
    ensures Pairs(Join(ps, sep), sep) == ps
  {
    if ps != [] {
      var (p, rest) := (ps[0], ps[1..]);
      JoinParses(rest, sep);
      var tail := if rest == [] then [] else [sep] + Join(rest, sep);
      FirstPair(p, tail, sep);
      assert Join(ps, sep) == Item(p) + tail && ps == [p] + rest;
    }
  }

  /** No key that comes out of parsing has an equals sign. */
  lemma {:induction false} ParsedArePlain(s: Text, sep: Byte)
    requires sep != EQUALS
    ensures Plain(Pairs(s, sep))
    decreases |s|
  {
    var k := Find(s, EQUALS, 0);
    FindSkips(s, EQUALS, 0);
    if k < |s| && Find(s, sep, k) < |s| {
      ParsedArePlain(s[Find(s, sep, k) + 1..], sep);
    }
  }

  function Encoded(ps: seq<Pair>): seq<Pair> {
    seq(|ps|, i requires 0 <= i < |ps| => Pair(ps[i].key, Encode(ps[i].value, true)))
  }

  /** Pairs with encoded values, joined by a reserved character, parse as themselves exactly
      when no key has an equals sign. Keys may well contain the separator. */
  lemma PairsRoundTrip(ps: seq<Pair>, sep: Byte)
    requires !Unreserved(sep) && sep != PERCENT && sep != PLUS
    ensures Pairs(Join(Encoded(ps), sep), sep) == Encoded(ps) <==> Plain(ps)
  {
    var es := Encoded(ps);
    forall i | 0 <= i < |ps| ensures sep !in es[i].value && es[i].key == ps[i].key {
      EncodeAvoids(ps[i].value, true, sep);
    }
    if Plain(ps) {
      assert Plain(es);
      JoinParses(es, sep);
    }
    ParsedArePlain(Join(es, sep), sep);
    assert Plain(es) ==> Plain(ps);
  }

  // ---- First wins ---------------------------------------------------------------------

  function Get(m: map<Text, Text>, name: Text): Option<Text> { if name in m then Some(m[name]) else None }

  /** The decoded value of the first pair of that name. */
  function FirstOf(ps: seq<Pair>, name: Text, trim: bool): Option<Text> {
    if ps == [] then None
    else if Name(ps[0].key, trim) == name then Some(Decode(ps[0].value, true))
    else FirstOf(ps[1..], name, trim)
  }

  lemma {:induction false} InsertAllGet(m: map<Text, Text>, ps: seq<Pair>, trim: bool, name: Text)
    ensures Get(InsertAll(m, ps, trim), name) == if name in m then Some(m[name]) else FirstOf(ps, name, trim)
    decreases |ps|
  {
    if ps != [] {
      InsertAllGet(Insert(m, Name(ps[0].key, trim), Decode(ps[0].value, true)), ps[1..], trim, name);
    }
  }

  /** Where the first pair of that name is; the length if there is none. */
  ghost predicate IsFirst(ps: seq<Pair>, name: Text, trim: bool, n: nat) {
    && n <= |ps| && (n < |ps| ==> Name(ps[n].key, trim) == name)
    && forall i | 0 <= i < n :: Name(ps[i].key, trim) != name
  }

  lemma {:induction false} FirstOfEncoded(ps: seq<Pair>, name: Text, trim: bool, n: nat)
    requires IsFirst(ps, name, trim, n)
    ensures FirstOf(Encoded(ps), name, trim) == if n < |ps| then Some(ps[n].value) else None
    decreases |ps|
  {
    if ps != [] {
      assert Encoded(ps)[1..] == Encoded(ps[1..]);
      if n == 0 {
        RoundTrip(ps[0].value, true, true);
      } else {
        FirstOfEncoded(ps[1..], name, trim, n - 1);
      }
    }
  }

  /** Parsing joined pairs gives exactly the first-wins, case-insensitive map: under every
      name the value of the first pair of that name. */
  lemma ParamRoundTrip(ps: seq<Pair>, sep: Byte, trim: bool, name: Text, n: nat)
    requires !Unreserved(sep) && sep != PERCENT && sep != PLUS && Plain(ps) && IsFirst(ps, name, trim, n)
    ensures Get(InsertAll(map[], Pairs(Join(Encoded(ps), sep), sep), trim), name)
         == if n < |ps| then Some(ps[n].value) else None
  {
    PairsRoundTrip(ps, sep);
    InsertAllGet(map[], Encoded(ps), trim, name);
    FirstOfEncoded(ps, name, trim, n);
  }

  // ---- Parsing on demand ----------------------------------------------------------------

  /** "application/x-www-form-urlencoded" */
  const FORM: Text := [97, 112, 112, 108, 105, 99, 97, 116, 105, 111, 110, 47, 120, 45, 119, 119, 119, 45,
                       102, 111, 114, 109, 45, 117, 114, 108, 101, 110, 99, 111, 100, 101, 100]

  /** The content type mentions a form, whatever the case. */
  predicate IsForm(contentType: Text) {
    var t := Fold(contentType);
    exists i | 0 <= i <= |t| :: FORM <= t[i..]
  }

  lemma {:induction false} InsertAllAppend(m: map<Text, Text>, ps: seq<Pair>, qs: seq<Pair>, trim: bool)
    ensures InsertAll(m, ps + qs, trim) == InsertAll(InsertAll(m, ps, trim), qs, trim)
    decreases |ps|
  {
    if ps == [] {
      assert ps + qs == qs;
    } else {
      InsertAllAppend(Insert(m, Name(ps[0].key, trim), Decode(ps[0].value, true)), ps[1..], qs, trim);
      assert (ps + qs)[1..] == ps[1..] + qs;
    }
  }

  class HttpRequest {
    var query: Text
    var body: Text
    var contentType: Text
    var cookie: Text
    var params: map<Text, Text>   // by folded name
    var cookies: map<Text, Text>
    var queryParsed: bool         // the three bits of the parse flag
    var bodyParsed: bool
    var cookiesParsed: bool

    constructor (q: Text, b: Text, content: Text, c: Text)
      ensures query == q && body == b && contentType == content && cookie == c
      ensures params == map[] && cookies == map[] && !queryParsed && !bodyParsed && !cookiesParsed
    {
      query, body, contentType, cookie := q, b, content, c;
      params, cookies, queryParsed, bodyParsed, cookiesParsed := map[], map[], false, false, false;
    }

    /** The pairs not parsed yet: those of the query, then those of a form in the body. */
    ghost function Unparsed(): seq<Pair>
      reads this
    {
      (if queryParsed then [] else Pairs(query, AMPERSAND))
      + (if bodyParsed || !IsForm(contentType) then [] else Pairs(body, AMPERSAND))
    }

    /** What a name stands for: what was set or parsed under it, else the first pair of that
        name in the query, else in the body. */
    ghost function Param(name: Text): Option<Text>
      reads this
    {
      if name in params then Some(params[name]) else FirstOf(Unparsed(), name, false)
    }

    ghost function Cookie(name: Text): Option<Text>
      reads this
    {
      if name in cookies then Some(cookies[name])
      else if cookiesParsed then None else FirstOf(Pairs(cookie, SEMICOLON), name, true)
    }

    method InitQueryParam()
      modifies this`params, this`queryParsed
      ensures queryParsed
      ensures params == if old(queryParsed) then old(params) else InsertAll(old(params), Pairs(query, AMPERSAND), false)
    {
      if queryParsed {
        return;
      }
      params := ParseParam(query, params, AMPERSAND, false);
      queryParsed := true;
    }

    method InitBodyParam()
      modifies this`params, this`bodyParsed
      ensures bodyParsed
      ensures params == if old(bodyParsed) || !IsForm(contentType) then old(params)
                        else InsertAll(old(params), Pairs(body, AMPERSAND), false)
    {
      if bodyParsed {
        return;
      }
      if !IsForm(contentType) {
        bodyParsed := true;
        return;
      }
      params := ParseParam(body, params, AMPERSAND, false);
      bodyParsed := true;
    }

    /** Parsing on demand cannot be seen: it changes what no name stands for. */
    method InitParams()
      modifies this`params, this`queryParsed, this`bodyParsed
      ensures queryParsed && bodyParsed && params == InsertAll(old(params), old(Unparsed()), false)
      ensures forall name :: Param(name) == old(Param(name))
    {
      ghost var (m, ps, left) := (params, if queryParsed then [] else Pairs(query, AMPERSAND), Unparsed());
      ghost var qs := if bodyParsed || !IsForm(contentType) then [] else Pairs(body, AMPERSAND);
      InitQueryParam();
      InitBodyParam();
      InsertAllAppend(m, ps, qs, false);
      assert left == ps + qs && params == InsertAll(m, left, false);
      forall name ensures Param(name) == old(Param(name)) {
        InsertAllGet(m, left, false, name);
      }
    }

    method GetParam(key: Text, def: Text) returns (r: Text)
      modifies this`params, this`queryParsed, this`bodyParsed
      ensures r == match old(Param(Fold(key))) case None => def case Some(v) => v
      ensures forall name :: Param(name) == old(Param(name))
    {
      InitParams();
      assert Param(Fold(key)) == Get(params, Fold(key));
      return if Fold(key) in params then params[Fold(key)] else def;
    }

    /** A value set is the value from then on, parsed or not. */
    method SetParam(key: Text, value: Text)
      modifies this`params
      ensures forall name :: Param(name) == if name == Fold(key) then Some(value) else old(Param(name))
    {
      params := params[Fold(key) := value];
      assert Unparsed() == old(Unparsed());
    }

    /** Deleting takes only what is in the map: the name is gone exactly when no pair of
        that name is still to be parsed. */
    method DelParam(key: Text)
      modifies this`params
      ensures forall name :: name != Fold(key) ==> Param(name) == old(Param(name))
      ensures Param(Fold(key)) == old(FirstOf(Unparsed(), Fold(key), false))
      ensures Param(Fold(key)) == None <==> forall p | p in old(Unparsed()) :: Name(p.key, false) != Fold(key)
    {
      params := params - {Fold(key)};
      assert Unparsed() == old(Unparsed());
      FirstOfNone(Unparsed(), Fold(key), false);
    }

    method GetCookie(key: Text, def: Text) returns (r: Text)
      modifies this`cookies, this`cookiesParsed
      ensures r == match old(Cookie(Fold(key))) case None => def case Some(v) => v
      ensures forall name :: Cookie(name) == old(Cookie(name))
    {
      InitCookies();
      return if Fold(key) in cookies then cookies[Fold(key)] else def;
    }

    method InitCookies()
      modifies this`cookies, this`cookiesParsed
      ensures cookiesParsed && forall name :: Cookie(name) == old(Cookie(name))
    {
      if cookiesParsed {
        return;
      }
      ghost var m := cookies;
      if cookie != [] {
        cookies := ParseParam(cookie, cookies, SEMICOLON, true);
      }
      cookiesParsed := true;
      forall name ensures Cookie(name) == old(Cookie(name)) {
        InsertAllGet(m, Pairs(cookie, SEMICOLON), true, name);
      }
    }
  }

  lemma {:induction false} FirstOfNone(ps: seq<Pair>, name: Text, trim: bool)
    ensures FirstOf(ps, name, trim) == None <==> forall p | p in ps :: Name(p.key, trim) != name
  {
    if ps != [] {
      FirstOfNone(ps[1..], name, trim);
      assert ps[0] in ps && forall p | p in ps :: p == ps[0] || p in ps[1..];
    }
  }

  /** A parameter deleted before the first parse comes back: with the query "a=1", deleting
      "a" and asking for it gives "1". */
  method DeletedComesBack() returns (r: Text)
    ensures r == [49]
  {
    var request := new HttpRequest([97, 61, 49], [], [], []);
    FirstPair(Pair([97], [49]), [], AMPERSAND);
    assert Item(Pair([97], [49])) + [] == [97, 61, 49];
    assert request.Unparsed()[0] == Pair([97], [49]);
    assert Decode([49], true) == [49];
    request.DelParam([97]);
    assert request.Param(Fold([97])) == Some([49]);
    r := request.GetParam([97], []);
  }

  function Bytes(s: string): Text
    requires forall i | 0 <= i < |s| :: s[i] as int < 256
  {
    seq(|s|, i requires 0 <= i < |s| => s[i] as int)
  }

  lemma FormIs()
    ensures FORM == Bytes("application/x-www-form-urlencoded")
  {
  }

  /** Pairs with encoded values, joined by '&' into a query, are what the request's parameters
      are: under each name the value of its first pair, else the default. */
  method QueryRoundTrip(ps: seq<Pair>, key: Text, def: Text, ghost n: nat) returns (r: Text)
    requires Plain(ps) && IsFirst(ps, Fold(key), false, n)
    ensures r == if n < |ps| then ps[n].value else def
  {
    var request := new HttpRequest(Join(Encoded(ps), '&' as int), [], [], []);
    PairsRoundTrip(ps, '&' as int);
    FirstOfEncoded(ps, Fold(key), false, n);
    assert request.Unparsed() == Encoded(ps);
    r := request.GetParam(key, def);
  }

  method NewForm(body: Text) returns (request: HttpRequest)
    ensures fresh(request) && request.query == [] && request.body == body && request.params == map[]
    ensures !request.queryParsed && !request.bodyParsed && IsForm(request.contentType)
    ensures request.contentType == Bytes("application/x-www-form-urlencoded")
  {
    FormIs();
    FoldedForm();
    request := new HttpRequest([], body, FORM, []);
  }

  /** So are those of a form in the body. */
  method FormRoundTrip(ps: seq<Pair>, key: Text, def: Text, ghost n: nat) returns (r: Text)
    requires Plain(ps) && IsFirst(ps, Fold(key), false, n)
    ensures r == if n < |ps| then ps[n].value else def
  {
    var request := NewForm(Join(Encoded(ps), '&' as int));
    PairsRoundTrip(ps, '&' as int);
    FirstOfEncoded(ps, Fold(key), false, n);
    assert request.Unparsed() == Encoded(ps);
    r := request.GetParam(key, def);
  }

  /** And its cookies, joined by ';', with names trimmed. */
  method CookieRoundTrip(ps: seq<Pair>, key: Text, def: Text, ghost n: nat) returns (r: Text)
    requires Plain(ps) && IsFirst(ps, Fold(key), true, n)
    ensures r == if n < |ps| then ps[n].value else def
  {
    var request := new HttpRequest([], [], [], Join(Encoded(ps), ';' as int));
    PairsRoundTrip(ps, ';' as int);
    FirstOfEncoded(ps, Fold(key), true, n);
    r := request.GetCookie(key, def);
  }

  lemma {:induction false} FoldsToItself(t: Text)
    requires forall i | 0 <= i < |t| :: t[i] != 0 && Lower(t[i]) == t[i]
    ensures Fold(t) == t
  {
    if t != [] {
      FoldsToItself(t[1..]);
    }
  }

  lemma FoldedForm()
    ensures IsForm(FORM)
  {
    FoldsToItself(FORM);
    assert FORM <= Fold(FORM)[0..];
  }
}
