/**
  Expansion of uRPC payload templates: one ReplaceAll per parameter, in the map's
  unspecified order, against simultaneous substitution.
 */
module PayloadTemplate {
  import opened Lists
  import opened Octets

  /** Parameter values: whole numbers, flags, strings, and whatever else the formatter prints. */
  datatype Value = Whole(n: int) | Flag(b: bool) | Text(s: string) | Printed(s: string)

  function Digits(n: nat): string {
    if n < 10 then [['0', '1', '2', '3', '4', '5', '6', '7', '8', '9'][n]]
    else Digits(n / 10) + Digits(n % 10)
  }

  function ValueText(v: Value): string {
    match v
    case Whole(n) => if n < 0 then "-" + Digits(-n) else Digits(n)
    case Flag(b) => if b then "1" else "0"
    case Text(s) => s
    case Printed(s) => s
  }

  /** Left to right, without looking into what was put in. */
  function ReplaceAll(s: string, pattern: string, replacement: string): string
    requires pattern != ""
    decreases |s|
  {
    if |s| < |pattern| then s
    else if s[..|pattern|] == pattern then replacement + ReplaceAll(s[|pattern|..], pattern, replacement)
    else [s[0]] + ReplaceAll(s[1..], pattern, replacement)
  }

  function Placeholder(key: string): string {
    "{" + key + "}"
  }

  function ReplacePlaceholder(s: string, key: string, val: Value): string {
    ReplaceAll(s, Placeholder(key), ValueText(val))
  }

  /** The template after the parameters in `order` have been put in one after the other. */
  function Apply(s: string, order: seq<string>, params: map<string, Value>): string
    requires forall k :: k in order ==> k in params
    decreases |order|
  {
    if order == [] then s
    else Apply(ReplacePlaceholder(s, order[0], params[order[0]]), order[1..], params)
  }

  // ---- templates as tokens -----------------------------------------------------------------

  /** A plain character, a brace that belongs to no hole, or a hole. */
  datatype Token = Lit(c: char) | Open | Close | Hole(key: string)

  predicate BraceFree(s: string) {
    forall i :: 0 <= i < |s| ==> s[i] != '{' && s[i] != '}'
  }

  predicate TokenOk(t: Token) {
    && (t.Lit? ==> t.c != '{' && t.c != '}')
    && (t.Hole? ==> BraceFree(t.key))
  }

  predicate TokensOk(ts: seq<Token>) {
    forall i :: 0 <= i < |ts| ==> TokenOk(ts[i])
  }

  function TokenText(t: Token): string {
    match t
    case Lit(c) => [c]
    case Open => "{"
    case Close => "}"
    case Hole(key) => Placeholder(key)
  }

  function Render(ts: seq<Token>): string {
    if ts == [] then "" else TokenText(ts[0]) + Render(ts[1..])
  }

  function CharToken(c: char): Token {
    if c == '{' then Open else if c == '}' then Close else Lit(c)
  }

  /** Text as it stands, its braces belonging to no hole. */
  function Chars(s: string): (ts: seq<Token>)
    ensures |ts| == |s|
  {
    if s == "" then [] else [CharToken(s[0])] + Chars(s[1..])
  }

  /** The number of characters before the first brace. */
  function PlainPrefix(s: string): (n: nat)
    ensures n <= |s| && BraceFree(s[..n])
    ensures n < |s| ==> s[n] == '{' || s[n] == '}'
  {
    if s == "" || s[0] == '{' || s[0] == '}' then 0
    else
      var n := 1 + PlainPrefix(s[1..]);
      assert s[..n] == [s[0]] + s[1..][..n - 1];
      n
  }

  /** Every string is a template in exactly one way: a hole is a pair of braces with none in between. */
  function Tokenize(s: string): (ts: seq<Token>)
    ensures TokensOk(ts)
    decreases |s|
  {
    if s == "" then []
    else if s[0] == '{' then
      var n := PlainPrefix(s[1..]);
      assert s[1..][..n] == s[1..n + 1];
      if n < |s| - 1 && s[n + 1] == '}' then [Hole(s[1..n + 1])] + Tokenize(s[n + 2..])
      else [Open] + Tokenize(s[1..])
    else if s[0] == '}' then [Close] + Tokenize(s[1..])
    else [Lit(s[0])] + Tokenize(s[1..])
  }

  lemma {:induction false} TokenizeHole(s: string, n: nat)
    requires s != "" && s[0] == '{' && n == PlainPrefix(s[1..]) && n < |s| - 1 && s[n + 1] == '}'
    ensures Tokenize(s) == [Hole(s[1..n + 1])] + Tokenize(s[n + 2..])
  {
    hide PlainPrefix, BraceFree, TokensOk;
  }

  lemma {:induction false} HoleText(s: string, n: nat)
    requires n < |s| - 1 && s[0] == '{' && s[n + 1] == '}'
    ensures s[..n + 2] == TokenText(Hole(s[1..n + 1]))
  {
  }

  lemma {:induction false} TokenizeOne(s: string) returns (t: Token)
    requires s != ""
    requires s[0] == '{' ==> var n := PlainPrefix(s[1..]); !(n < |s| - 1 && s[n + 1] == '}')
    ensures Tokenize(s) == [t] + Tokenize(s[1..]) && s[..1] == TokenText(t)
  {
    hide PlainPrefix, BraceFree, TokensOk;
    t := if s[0] == '{' then Open else if s[0] == '}' then Close else Lit(s[0]);
  }

  /** The first token of a template, and where the next one begins. */
  lemma {:induction false} FirstToken(s: string) returns (t: Token, n: nat)
    requires s != ""
    ensures 0 < n <= |s| && Tokenize(s) == [t] + Tokenize(s[n..]) && s[..n] == TokenText(t)
  {
    hide *;
    var m := PlainPrefix(s[1..]);
    if s[0] == '{' && m < |s| - 1 && s[m + 1] == '}' {
      TokenizeHole(s, m);
      HoleText(s, m);
      t, n := Hole(s[1..m + 1]), m + 2;
    } else {
      t := TokenizeOne(s);
      n := 1;
    }
  }

  lemma {:induction false} RenderTokenize(s: string)
    ensures Render(Tokenize(s)) == s
    decreases |s|
  {
    hide Tokenize, TokenText;
    if s == "" {
      TokenizeEmpty();
    } else {
      var t, n := FirstToken(s);
      RenderTokenize(s[n..]);
      assert ([t] + Tokenize(s[n..]))[1..] == Tokenize(s[n..]);
      assert s[..n] + s[n..] == s;
    }
  }

  lemma {:induction false} TokenizeEmpty()
    ensures Tokenize("") == []
  {
  }

  /** After an open brace: the plain text up to a close brace, if that comes before anything else. */
  function CloseRun(ts: seq<Token>): Option<string> {
    if ts == [] || ts[0].Open? || ts[0].Hole? then None
    else if ts[0].Close? then Some("")
    else
      match CloseRun(ts[1..])
      case Some(t) => Some([ts[0].c] + t)
      case None => None
  }

  /** No stray open brace and stray close brace enclose exactly the plain text k. */
  predicate Clear(ts: seq<Token>, k: string) {
    ts != [] ==> (ts[0].Open? ==> CloseRun(ts[1..]) != Some(k)) && Clear(ts[1..], k)
  }

  /** One parameter put into the holes named by it. */
  function Fill(ts: seq<Token>, k: string, v: string): seq<Token> {
    if ts == [] then []
    else (if ts[0] == Hole(k) then Chars(v) else [ts[0]]) + Fill(ts[1..], k, v)
  }

  /** What becomes of one token: the text of its parameter, or the token itself. */
  function FilledToken(t: Token, done: set<string>, params: map<string, Value>): seq<Token>
    requires done <= params.Keys
  {
    if t.Hole? && t.key in done then Chars(ValueText(params[t.key])) else [t]
  }

  /** The parameters in `done` put in all at once; other holes stay as they are. */
  function FillAll(ts: seq<Token>, done: set<string>, params: map<string, Value>): seq<Token>
    requires done <= params.Keys
  {
    if ts == [] then []
    else FilledToken(ts[0], done, params) + FillAll(ts[1..], done, params)
  }

  /** Simultaneous substitution, with unknown holes left verbatim. */
  function Substitute(s: string, params: map<string, Value>): string {
    Render(FillAll(Tokenize(s), params.Keys, params))
  }

  // ---- one ReplaceAll fills the holes of one key ------------------------------------------------

  lemma {:induction false} RenderConcat(a: seq<Token>, b: seq<Token>)
    ensures Render(a + b) == Render(a) + Render(b)
  {
    if a == [] {
      assert a + b == b;
    } else {
      assert (a + b)[1..] == a[1..] + b;
      RenderConcat(a[1..], b);
    }
  }

  lemma {:induction false} RenderChars(s: string)
    ensures Render(Chars(s)) == s
  {
    if s != "" {
      RenderChars(s[1..]);
    }
  }

  /** A character that is no open brace is passed over. */
  lemma {:induction false} ReplacePlain(s: string, k: string, v: string)
    requires s != "" && s[0] != '{'
    ensures ReplaceAll(s, Placeholder(k), v) == [s[0]] + ReplaceAll(s[1..], Placeholder(k), v)
  {
    if |s| >= |Placeholder(k)| {
      assert s[..|Placeholder(k)|][0] == s[0];
    } else {
      ReplaceShort(s[1..], k, v);
    }
  }

  /** Text without an open brace passes through unchanged. */
  lemma {:induction false} ReplaceSkips(w: string, rest: string, k: string, v: string)
    requires '{' !in w
    ensures ReplaceAll(w + rest, Placeholder(k), v) == w + ReplaceAll(rest, Placeholder(k), v)
    decreases |w|
  {
    hide ReplaceAll;
    var s := w + rest;
    if w == "" {
      assert s == rest;
      assert "" + ReplaceAll(rest, Placeholder(k), v) == ReplaceAll(rest, Placeholder(k), v);
    } else {
      assert s[1..] == w[1..] + rest;
      ReplaceSkips(w[1..], rest, k, v);
      ReplacePlain(s, k, v);
      var r := ReplaceAll(rest, Placeholder(k), v);
      assert [w[0]] + (w[1..] + r) == w + r;
    }
  }

  lemma {:induction false} ReplaceShort(s: string, k: string, v: string)
    requires |s| < |Placeholder(k)|
    ensures ReplaceAll(s, Placeholder(k), v) == s
  {
  }

  lemma {:induction false} ReplaceHit(rest: string, k: string, v: string)
    ensures ReplaceAll(Placeholder(k) + rest, Placeholder(k), v) == v + ReplaceAll(rest, Placeholder(k), v)
  {
    var s := Placeholder(k) + rest;
    assert s[..|Placeholder(k)|] == Placeholder(k);
    assert s[|Placeholder(k)|..] == rest;
  }

  lemma {:induction false} PlaceholderFront(rest: string, k: string)
    requires |rest| >= |k| + 1
    ensures ("{" + rest)[..|k| + 2] == Placeholder(k) <==> k + "}" <= rest
  {
    var s, p := "{" + rest, Placeholder(k);
    assert s[..|k| + 2] == "{" + rest[..|k| + 1];
    assert p == "{" + (k + "}");
    assert p[1..] == k + "}";
  }

  lemma {:induction false} ReplaceMiss(rest: string, k: string, v: string)
    requires !(k + "}" <= rest)
    ensures ReplaceAll("{" + rest, Placeholder(k), v) == "{" + ReplaceAll(rest, Placeholder(k), v)
  {
    var s := "{" + rest;
    assert s[1..] == rest;
    if |rest| >= |k| + 1 {
      PlaceholderFront(rest, k);
    } else {
      ReplaceShort(rest, k, v);
    }
  }

  /** Plain text and a close brace at the front of a rendering are plain tokens and a stray close brace. */
  lemma {:induction false} PlainFront(ts: seq<Token>, k: string)
    requires TokensOk(ts) && BraceFree(k) && k + "}" <= Render(ts)
    ensures CloseRun(ts) == Some(k)
    decreases |k|
  {
    assert Render(ts)[0] == (k + "}")[0] == TokenText(ts[0])[0];
    if k != "" {
      assert ts[0].Lit?;
      assert Render(ts)[1..] == Render(ts[1..]);
      assert (k + "}")[1..] == k[1..] + "}";
      PlainFront(ts[1..], k[1..]);
      assert k == [k[0]] + k[1..];
    }
  }

  lemma {:induction false} SameHole(h: string, rest: string, k: string)
    requires BraceFree(h) && BraceFree(k) && k + "}" <= h + "}" + rest
    ensures h == k
    decreases |k|
  {
    var s := h + "}" + rest;
    assert s[0] == (k + "}")[0];
    if k != "" {
      assert h != "";
      assert s[1..] == h[1..] + "}" + rest;
      assert (k + "}")[1..] == k[1..] + "}";
      SameHole(h[1..], rest, k[1..]);
      assert h == [h[0]] + h[1..] && k == [k[0]] + k[1..];
    }
  }

  lemma {:induction false} ReplaceOtherHole(h: string, rest: string, k: string, v: string)
    requires BraceFree(h) && BraceFree(k) && h != k
    ensures ReplaceAll(Placeholder(h) + rest, Placeholder(k), v) == Placeholder(h) + ReplaceAll(rest, Placeholder(k), v)
  {
    hide ReplaceAll;
    var w := h + "}";
    if k + "}" <= w + rest {
      SameHole(h, rest, k);
    }
    ReplaceMiss(w + rest, k, v);
    ReplaceSkips(w, rest, k, v);
    assert Placeholder(h) + rest == "{" + (w + rest);
    assert Placeholder(h) == "{" + w;
  }

  /** The first token, after the replacement in what follows it. */
  lemma {:induction false} ReplaceFirst(ts: seq<Token>, k: string, v: string)
    requires ts != [] && TokensOk(ts) && BraceFree(k) && Clear(ts, k)
    ensures ReplaceAll(Render(ts), Placeholder(k), v)
      == (if ts[0] == Hole(k) then v else TokenText(ts[0])) + ReplaceAll(Render(ts[1..]), Placeholder(k), v)
  {
    var rest := Render(ts[1..]);
    assert Render(ts) == TokenText(ts[0]) + rest;
    hide Render, ReplaceAll;
    match ts[0]
    case Lit(c) => ReplaceSkips([c], rest, k, v);
    case Close => ReplaceSkips("}", rest, k, v);
    case Open =>
      if k + "}" <= rest {
        PlainFront(ts[1..], k);
      }
      ReplaceMiss(rest, k, v);
    case Hole(h) =>
      if h == k {
        ReplaceHit(rest, k, v);
      } else {
        ReplaceOtherHole(h, rest, k, v);
      }
  }

  /** ReplaceAll on a rendered template is Fill on its tokens, unless stray braces spell the key. */
  lemma {:induction false} ReplaceIsFill(ts: seq<Token>, k: string, v: string)
    requires TokensOk(ts) && BraceFree(k) && Clear(ts, k)
    ensures ReplaceAll(Render(ts), Placeholder(k), v) == Render(Fill(ts, k, v))
  {
    if ts == [] {
      ReplaceShort("", k, v);
    } else {
      hide ReplaceAll, Render;
      ReplaceFirst(ts, k, v);
      ReplaceIsFill(ts[1..], k, v);
      RenderConcat(if ts[0] == Hole(k) then Chars(v) else [ts[0]], Fill(ts[1..], k, v));
      RenderOne(ts[0]);
      RenderChars(v);
    }
  }

  lemma {:induction false} RenderOne(t: Token)
    ensures Render([t]) == TokenText(t)
  {
    assert Render([t][1..]) == "";
  }

  // ---- every order gives the simultaneous substitution -------------------------------------------

  /** Every stray close brace comes before every stray open brace. */
  predicate Safe(ts: seq<Token>) {
    forall i, j :: 0 <= i < j < |ts| ==> !(ts[i].Open? && ts[j].Close?)
  }

  ghost predicate PlainParams(params: map<string, Value>) {
    forall k :: k in params ==> BraceFree(k) && BraceFree(ValueText(params[k]))
  }

  ghost predicate PlainNames(params: map<string, Value>) {
    forall k :: k in params ==> BraceFree(k)
  }

  lemma {:induction false} CharsOk(s: string)
    ensures TokensOk(Chars(s)) && forall i :: 0 <= i < |s| ==> Chars(s)[i] == CharToken(s[i])
  {
    if s != "" {
      CharsOk(s[1..]);
    }
  }

  lemma {:induction false} FillAllOk(ts: seq<Token>, done: set<string>, params: map<string, Value>)
    requires TokensOk(ts) && done <= params.Keys
    ensures TokensOk(FillAll(ts, done, params))
  {
    if ts != [] {
      FillAllOk(ts[1..], done, params);
      if ts[0].Hole? && ts[0].key in done {
        CharsOk(ValueText(params[ts[0].key]));
      }
    }
  }

  lemma {:induction false} FillConcat(a: seq<Token>, b: seq<Token>, k: string, v: string)
    ensures Fill(a + b, k, v) == Fill(a, k, v) + Fill(b, k, v)
  {
    if a == [] {
      assert a + b == b;
    } else {
      assert (a + b)[1..] == a[1..] + b;
      FillConcat(a[1..], b, k, v);
    }
  }

  lemma {:induction false} FillChars(s: string, k: string, v: string)
    ensures Fill(Chars(s), k, v) == Chars(s)
  {
    if s != "" {
      FillChars(s[1..], k, v);
    }
  }

  /** One more parameter after those already put in: what was put in is not looked into again. */
  lemma {:induction false} FillAfterAll(ts: seq<Token>, done: set<string>, k: string, params: map<string, Value>)
    requires done <= params.Keys && k in params
    ensures Fill(FillAll(ts, done, params), k, ValueText(params[k])) == FillAll(ts, done + {k}, params)
  {
    if ts != [] {
      var v := ValueText(params[k]);
      var first := FilledToken(ts[0], done, params);
      FillAfterAll(ts[1..], done, k, params);
      FillConcat(first, FillAll(ts[1..], done, params), k, v);
      if ts[0].Hole? && ts[0].key in done {
        FillChars(ValueText(params[ts[0].key]), k, v);
      } else {
        assert Fill([ts[0]][1..], k, v) == [];
      }
    }
  }

  lemma {:induction false} FillAllNone(ts: seq<Token>, params: map<string, Value>)
    ensures FillAll(ts, {}, params) == ts
  {
    if ts != [] {
      FillAllNone(ts[1..], params);
    }
  }

  /** Stray braces spell none of these keys, whichever parameters have been put in. */
  ghost predicate AlwaysClear(ts: seq<Token>, keys: set<string>, params: map<string, Value>)
    requires keys <= params.Keys
  {
    forall done: set<string>, k | done <= keys && k in keys :: Clear(FillAll(ts, done, params), k)
  }

  /** The passes over `order`, starting with the parameters in `done` put in. */
  lemma {:induction false} ApplyIsFillAll(ts: seq<Token>, done: set<string>, order: seq<string>,
        keys: set<string>, params: map<string, Value>)
    requires TokensOk(ts) && PlainNames(params)
    requires keys <= params.Keys && done <= keys && (forall k :: k in order ==> k in keys)
    requires AlwaysClear(ts, keys, params)
    ensures Apply(Render(FillAll(ts, done, params)), order, params)
      == Render(FillAll(ts, done + (set k | k in order), params))
    decreases |order|
  {
    if order == [] {
      assert done + (set k | k in order) == done;
    } else {
      var k := order[0];
      var filled := FillAll(ts, done, params);
      FillAllOk(ts, done, params);
      assert k in order && k in keys;
      assert Clear(filled, k);
      ReplaceIsFill(filled, k, ValueText(params[k]));
      FillAfterAll(ts, done, k, params);
      ApplyIsFillAll(ts, done + {k}, order[1..], keys, params);
      assert done + {k} + (set x | x in order[1..]) == done + (set x | x in order);
    }
  }

  lemma {:induction false} NoCloseNoRun(ts: seq<Token>)
    requires forall i :: 0 <= i < |ts| ==> !ts[i].Close?
    ensures CloseRun(ts) == None
  {
    if ts != [] {
      NoCloseNoRun(ts[1..]);
    }
  }

  lemma {:induction false} SafeIsClear(ts: seq<Token>, k: string)
    requires Safe(ts)
    ensures Clear(ts, k)
  {
    if ts != [] {
      assert Safe(ts[1..]);
      SafeIsClear(ts[1..], k);
      if ts[0].Open? {
        NoCloseNoRun(ts[1..]);
      }
    }
  }

  lemma {:induction false} SafeConcat(a: seq<Token>, b: seq<Token>)
    ensures Safe(a + b) <==> Safe(a) && Safe(b) && !(Open in a && Close in b)
  {
    var s := a + b;
    if Safe(s) {
      forall i, j | 0 <= i < |a| && 0 <= j < |b|
        ensures !(a[i].Open? && b[j].Close?)
      {
        assert s[i] == a[i] && s[|a| + j] == b[j];
      }
      assert forall i, j | 0 <= i < j < |a| :: s[i] == a[i] && s[j] == a[j];
      assert forall i, j | 0 <= i < j < |b| :: s[|a| + i] == b[i] && s[|a| + j] == b[j];
    }
  }

  /** Putting in fewer parameters makes no more stray braces. */
  lemma {:induction false} FewerStrays(ts: seq<Token>, done: set<string>, params: map<string, Value>)
    requires done <= params.Keys
    ensures var some, all := FillAll(ts, done, params), FillAll(ts, params.Keys, params);
      && (Open in some ==> Open in all)
      && (Close in some ==> Close in all)
      && (Safe(all) ==> Safe(some))
  {
    if ts != [] {
      var a, b := FilledToken(ts[0], done, params), FilledToken(ts[0], params.Keys, params);
      var some, all := FillAll(ts[1..], done, params), FillAll(ts[1..], params.Keys, params);
      FewerStrays(ts[1..], done, params);
      assert FillAll(ts, done, params) == a + some && FillAll(ts, params.Keys, params) == b + all;
      assert a == b || a == [ts[0]];
      assert ts[0].Hole? || a == b;
      hide FillAll, FilledToken;
      SafeConcat(a, some);
      SafeConcat(b, all);
    }
  }

  /**
    With brace-free names every order of the parameters gives simultaneous substitution, as long as in the result no
    stray open brace, from the template or from a value, comes before a stray close brace.
   */
  lemma {:induction false} SafeResultSubstitutes(s: string, order: seq<string>, params: map<string, Value>)
    requires Safe(FillAll(Tokenize(s), params.Keys, params)) && PlainNames(params) && IsOrder(order, params.Keys)
    ensures Apply(s, order, params) == Substitute(s, params)
  {
    var ts := Tokenize(s);
    RenderTokenize(s);
    FillAllNone(ts, params);
    forall done: set<string>, k | done <= params.Keys && k in params.Keys
      ensures Clear(FillAll(ts, done, params), k)
    {
      FewerStrays(ts, done, params);
      SafeIsClear(FillAll(ts, done, params), k);
    }
    ApplyIsFillAll(ts, {}, order, params.Keys, params);
    assert {} + (set k | k in order) == params.Keys;
  }

  lemma {:induction false} BracesOfChars(s: string)
    ensures Open in Chars(s) <==> '{' in s
    ensures Close in Chars(s) <==> '}' in s
    ensures Safe(Chars(s)) <==> forall i, j :: 0 <= i < j < |s| ==> !(s[i] == '{' && s[j] == '}')
  {
    CharsOk(s);
    var ts := Chars(s);
    assert forall i :: 0 <= i < |s| ==> (ts[i].Open? <==> s[i] == '{') && (ts[i].Close? <==> s[i] == '}');
  }

  /** Values without open braces bring in none, values without close braces none of those. */
  lemma {:induction false} StraysOfFilled(ts: seq<Token>, params: map<string, Value>)
    ensures var all := FillAll(ts, params.Keys, params);
      && (Open in all ==> Open in ts || exists k :: k in params && '{' in ValueText(params[k]))
      && (Close in all ==> Close in ts || exists k :: k in params && '}' in ValueText(params[k]))
  {
    if ts != [] {
      StraysOfFilled(ts[1..], params);
      if ts[0].Hole? && ts[0].key in params {
        BracesOfChars(ValueText(params[ts[0].key]));
      }
    }
  }

  lemma {:induction false} OneKindIsSafe(ts: seq<Token>)
    requires Open !in ts || Close !in ts
    ensures Safe(ts)
  {
  }

  /** So braces of one kind only, in the template's strays and in the values, are harmless wherever they are. */
  lemma {:induction false} OneKindSubstitutes(s: string, order: seq<string>, params: map<string, Value>)
    requires PlainNames(params) && IsOrder(order, params.Keys)
    requires
      || (Open !in Tokenize(s) && forall k :: k in params ==> '{' !in ValueText(params[k]))
      || (Close !in Tokenize(s) && forall k :: k in params ==> '}' !in ValueText(params[k]))
    ensures Apply(s, order, params) == Substitute(s, params)
  {
    hide Tokenize, FillAll, Apply, Substitute, ValueText, PlainNames, IsOrder, Safe;
    StraysOfFilled(Tokenize(s), params);
    OneKindIsSafe(FillAll(Tokenize(s), params.Keys, params));
    SafeResultSubstitutes(s, order, params);
  }

  /** Filling with plain values neither makes nor moves stray braces. */
  lemma {:induction false} FillAllStrays(ts: seq<Token>, params: map<string, Value>)
    requires PlainParams(params)
    ensures var all := FillAll(ts, params.Keys, params);
      && (Open in all ==> Open in ts)
      && (Close in all ==> Close in ts)
      && (Safe(ts) ==> Safe(all))
  {
    if ts != [] {
      var first, rest := FilledToken(ts[0], params.Keys, params), FillAll(ts[1..], params.Keys, params);
      FillAllStrays(ts[1..], params);
      assert FillAll(ts, params.Keys, params) == first + rest;
      if ts[0].Hole? && ts[0].key in params {
        BracesOfChars(ValueText(params[ts[0].key]));
      }
      assert Open in first ==> ts[0] == Open;
      assert Close in first ==> ts[0] == Close;
      FirstIsSafe(first, ts[0]);
      hide FillAll, FilledToken, Chars, BraceFree, ValueText, Safe;
      assert [ts[0]] + ts[1..] == ts;
      SafeConcat([ts[0]], ts[1..]);
      SafeConcat(first, rest);
    }
  }

  lemma {:induction false} FirstIsSafe(first: seq<Token>, t: Token)
    requires first == [t] || (Open !in first && Close !in first)
    ensures Safe(first)
  {
  }

  /**
    On a safe template, with brace-free names and values, every order of the parameters gives
    simultaneous substitution.
   */
  lemma {:induction false} AnyOrderSubstitutes(s: string, order: seq<string>, params: map<string, Value>)
    requires Safe(Tokenize(s)) && PlainParams(params) && IsOrder(order, params.Keys)
    ensures Apply(s, order, params) == Substitute(s, params)
  {
    hide Tokenize, FillAll, Apply, Substitute, Safe;
    FillAllStrays(Tokenize(s), params);
    SafeResultSubstitutes(s, order, params);
  }

  // ---- on any other template some order does not ----------------------------------------------------

  /** No stray open brace is followed by plain text and a stray close brace: that would be a hole. */
  predicate NoRuns(ts: seq<Token>) {
    ts != [] ==> (ts[0].Open? ==> CloseRun(ts[1..]) == None) && NoRuns(ts[1..])
  }

  lemma {:induction false} RunInTokens(s: string)
    requires CloseRun(Tokenize(s)) != None
    ensures PlainPrefix(s) < |s| && s[PlainPrefix(s)] == '}'
    decreases |s|
  {
    if s[0] != '{' && s[0] != '}' {
      RunInTokens(s[1..]);
    }
  }

  lemma {:induction false} TokenizeNoRuns(s: string)
    ensures NoRuns(Tokenize(s))
    decreases |s|
  {
    hide PlainPrefix;
    if s != "" {
      var n := if s[0] == '{' then PlainPrefix(s[1..]) else 0;
      if s[0] == '{' && n < |s| - 1 && s[n + 1] == '}' {
        TokenizeNoRuns(s[n + 2..]);
        assert Tokenize(s)[1..] == Tokenize(s[n + 2..]);
      } else {
        TokenizeNoRuns(s[1..]);
        assert Tokenize(s)[1..] == Tokenize(s[1..]);
        if s[0] == '{' && CloseRun(Tokenize(s[1..])) != None {
          RunInTokens(s[1..]);
        }
      }
    }
  }

  predicate NoStray(ts: seq<Token>) {
    forall i :: 0 <= i < |ts| ==> ts[i].Lit? || ts[i].Hole?
  }

  lemma {:induction false} FirstClose(ts: seq<Token>) returns (c: nat)
    requires Close in ts
    ensures c < |ts| && ts[c] == Close && forall i :: 0 <= i < c ==> ts[i] != Close
  {
    if ts[0] == Close {
      c := 0;
    } else {
      var b := FirstClose(ts[1..]);
      c := b + 1;
    }
  }

  lemma {:induction false} UnsafeSplit(ts: seq<Token>) returns (pre: seq<Token>, mid: seq<Token>, post: seq<Token>)
    requires !Safe(ts)
    ensures ts == pre + ([Open] + mid + [Close] + post) && NoStray(mid)
  {
    var rest := ts[1..];
    assert [ts[0]] + rest == ts;
    SafeConcat([ts[0]], rest);
    if !Safe(rest) {
      pre, mid, post := UnsafeSplit(rest);
      PrefixSplit([ts[0]], pre, [Open] + mid + [Close] + post);
      pre := [ts[0]] + pre;
    } else {
      assert ts[0] == Open;
      hide Safe;
      var c := FirstClose(rest);
      pre, mid, post := [], rest[..c], rest[c + 1..];
      CloseSplit(rest, c);
      BeforeCloseNoStray(rest, c);
    }
  }

  lemma {:induction false} PrefixSplit(head: seq<Token>, pre: seq<Token>, tail: seq<Token>)
    ensures head + (pre + tail) == (head + pre) + tail
  {
  }

  lemma {:induction false} CloseSplit(rest: seq<Token>, c: nat)
    requires c < |rest| && rest[c] == Close
    ensures [Open] + rest == [] + ([Open] + rest[..c] + [Close] + rest[c + 1..])
  {
    assert rest == rest[..c] + [Close] + rest[c + 1..];
  }

  lemma {:induction false} BeforeCloseNoStray(ts: seq<Token>, c: nat)
    requires Safe(ts) && c < |ts| && ts[c] == Close && forall i :: 0 <= i < c ==> ts[i] != Close
    ensures NoStray(ts[..c])
  {
  }

  /** mid's text with z in every hole. */
  function FilledText(mid: seq<Token>, z: string): string {
    if mid == [] then ""
    else (if mid[0].Hole? then z else TokenText(mid[0])) + FilledText(mid[1..], z)
  }

  lemma {:induction false} FilledTextShape(mid: seq<Token>, post: seq<Token>, z: string)
    requires NoStray(mid) && TokensOk(mid) && BraceFree(z)
    ensures BraceFree(FilledText(mid, z))
    ensures CloseRun(mid + [Close] + post) == None ==> |FilledText(mid, z)| >= |z|
  {
    var ts := mid + [Close] + post;
    if mid != [] {
      assert ts[1..] == mid[1..] + [Close] + post;
      FilledTextShape(mid[1..], post, z);
    }
  }

  lemma {:induction false} FillAllText(mid: seq<Token>, done: set<string>, params: map<string, Value>, z: string)
    requires done <= params.Keys && (forall k :: k in done ==> ValueText(params[k]) == z)
    requires NoStray(mid) && forall t :: t in mid && t.Hole? ==> t.key in done
    ensures Render(FillAll(mid, done, params)) == FilledText(mid, z)
  {
    if mid != [] {
      var first := if mid[0].Hole? then Chars(z) else [mid[0]];
      FillAllText(mid[1..], done, params, z);
      RenderConcat(first, FillAll(mid[1..], done, params));
      RenderOne(mid[0]);
      RenderChars(z);
    }
  }

  lemma {:induction false} FillAllConcat(a: seq<Token>, b: seq<Token>, done: set<string>, params: map<string, Value>)
    requires done <= params.Keys
    ensures FillAll(a + b, done, params) == FillAll(a, done, params) + FillAll(b, done, params)
  {
    if a == [] {
      assert a + b == b;
    } else {
      assert (a + b)[1..] == a[1..] + b;
      FillAllConcat(a[1..], b, done, params);
    }
  }

  lemma {:induction false} RunThroughChars(z: string, rest: seq<Token>)
    requires BraceFree(z)
    ensures CloseRun(Chars(z) + rest) ==
      match CloseRun(rest) case Some(t) => Some(z + t) case None => None
    ensures forall k :: Clear(Chars(z) + rest, k) <==> Clear(rest, k)
  {
    var ts := Chars(z) + rest;
    if z == "" {
      assert ts == rest;
      assert forall t: string :: "" + t == t;
    } else {
      assert ts[1..] == Chars(z[1..]) + rest;
      RunThroughChars(z[1..], rest);
      assert forall t: string :: [z[0]] + (z[1..] + t) == z + t;
    }
  }

  /** Putting in a long value only makes long new names between stray braces. */
  lemma {:induction false} NewRunsAreLong(ts: seq<Token>, done: set<string>, params: map<string, Value>, z: string)
    requires BraceFree(z) && done <= params.Keys && forall k :: k in done ==> ValueText(params[k]) == z
    ensures var run := CloseRun(FillAll(ts, done, params));
      run.Some? ==> run == CloseRun(ts) || |run.value| >= |z|
  {
    if ts != [] {
      var rest := FillAll(ts[1..], done, params);
      NewRunsAreLong(ts[1..], done, params, z);
      if ts[0].Hole? && ts[0].key in done {
        RunThroughChars(z, rest);
      } else {
        assert ([ts[0]] + rest)[1..] == rest;
      }
    }
  }

  lemma {:induction false} LongValueClear(ts: seq<Token>, done: set<string>, params: map<string, Value>,
        z: string, k: string)
    requires BraceFree(z) && done <= params.Keys && forall x :: x in done ==> ValueText(params[x]) == z
    requires NoRuns(ts) && |k| < |z|
    ensures Clear(FillAll(ts, done, params), k)
  {
    if ts != [] {
      var rest := FillAll(ts[1..], done, params);
      LongValueClear(ts[1..], done, params, z, k);
      NewRunsAreLong(ts[1..], done, params, z);
      if ts[0].Hole? && ts[0].key in done {
        RunThroughChars(z, rest);
      } else {
        assert ([ts[0]] + rest)[1..] == rest;
      }
    }
  }

  lemma {:induction false} NoRunsClear(ts: seq<Token>, k: string)
    requires NoRuns(ts)
    ensures Clear(ts, k)
  {
    if ts != [] {
      NoRunsClear(ts[1..], k);
    }
  }

  lemma {:induction false} NoRunsInside(pre: seq<Token>, ts: seq<Token>)
    requires NoRuns(pre + ts)
    ensures NoRuns(ts)
  {
    if pre == [] {
      assert pre + ts == ts;
    } else {
      assert (pre + ts)[1..] == pre[1..] + ts;
      NoRunsInside(pre[1..], ts);
    }
  }

  lemma {:induction false} HolesAreShort(ts: seq<Token>, h: string)
    requires Hole(h) in ts
    ensures |h| < |Render(ts)|
  {
    if ts[0] != Hole(h) {
      HolesAreShort(ts[1..], h);
    }
  }

  lemma {:induction false} FillAbsent(ts: seq<Token>, k: string, v: string)
    requires Hole(k) !in ts
    ensures Fill(ts, k, v) == ts
  {
    if ts != [] {
      FillAbsent(ts[1..], k, v);
    }
  }

  lemma {:induction false} ErasingNeverGrows(s: string, k: string)
    ensures |ReplaceAll(s, Placeholder(k), "")| <= |s|
    decreases |s|
  {
    var n := |Placeholder(k)|;
    if |s| >= n {
      if s[..n] == Placeholder(k) {
        ErasingNeverGrows(s[n..], k);
      } else {
        ErasingNeverGrows(s[1..], k);
      }
    }
  }

  lemma {:induction false} ErasingShrinks(a: string, k: string, b: string)
    ensures |ReplaceAll(a + Placeholder(k) + b, Placeholder(k), "")| < |a + Placeholder(k) + b|
    decreases |a|
  {
    var p := Placeholder(k);
    var s := a + p + b;
    if a == "" {
      assert s[..|p|] == p;
      ErasingNeverGrows(s[|p|..], k);
    } else if s[..|p|] == p {
      ErasingNeverGrows(s[|p|..], k);
    } else {
      assert s[1..] == a[1..] + p + b;
      ErasingShrinks(a[1..], k, b);
    }
  }

  lemma {:induction false} ApplyAppend(s: string, order: seq<string>, k: string, params: map<string, Value>)
    requires k in params && forall x :: x in order ==> x in params
    ensures Apply(s, order + [k], params) == ReplacePlaceholder(Apply(s, order, params), k, params[k])
    decreases |order|
  {
    if order == [] {
      assert order + [k] == [k] && [k][1..] == [];
    } else {
      assert (order + [k])[1..] == order[1..] + [k];
      ApplyAppend(ReplacePlaceholder(s, order[0], params[order[0]]), order[1..], k, params);
    }
  }

  /** The names of the holes between the stray braces. */
  function HoleKeys(mid: seq<Token>): set<string> {
    set t | t in mid && t.Hole? :: t.key
  }

  /** Long values for the holes in mid, and an empty one for the name they then spell. */
  function Trap(mid: seq<Token>, z: string): map<string, Value> {
    (map k | k in HoleKeys(mid) :: Text(z))[FilledText(mid, z) := Text("")]
  }

  /** The text after all holes of mid are filled contains the new name as a hole. */
  lemma {:induction false} TrapSprung(ts: seq<Token>, pre: seq<Token>, mid: seq<Token>, post: seq<Token>,
        z: string, done: set<string>, params: map<string, Value>)
    requires ts == pre + ([Open] + mid + [Close] + post) && NoStray(mid)
    requires done <= params.Keys && (forall k :: k in done ==> ValueText(params[k]) == z)
    requires forall t :: t in mid && t.Hole? ==> t.key in done
    ensures var k := FilledText(mid, z);
      Render(FillAll(ts, done, params))
        == Render(FillAll(pre, done, params)) + Placeholder(k) + Render(FillAll(post, done, params))
  {
    hide *;
    FilledConcat(pre, [Open] + mid + [Close] + post, done, params);
    FilledConcat([Open] + mid + [Close], post, done, params);
    FilledConcat([Open] + mid, [Close], done, params);
    FilledConcat([Open], mid, done, params);
    FilledStray(Open, done, params);
    FilledStray(Close, done, params);
    FillAllText(mid, done, params, z);
    PlaceholderIs(FilledText(mid, z));
    var a, m, b := Render(FillAll(pre, done, params)), FilledText(mid, z), Render(FillAll(post, done, params));
    assert a + ("{" + m + "}" + b) == a + ("{" + m + "}") + b;
  }

  lemma {:induction false} PlaceholderIs(k: string)
    ensures Placeholder(k) == "{" + k + "}"
  {
  }

  lemma {:induction false} FilledConcat(a: seq<Token>, b: seq<Token>, done: set<string>, params: map<string, Value>)
    requires done <= params.Keys
    ensures Render(FillAll(a + b, done, params)) == Render(FillAll(a, done, params)) + Render(FillAll(b, done, params))
  {
    FillAllConcat(a, b, done, params);
    RenderConcat(FillAll(a, done, params), FillAll(b, done, params));
  }

  lemma {:induction false} FilledStray(t: Token, done: set<string>, params: map<string, Value>)
    requires done <= params.Keys && (t == Open || t == Close)
    ensures Render(FillAll([t], done, params)) == if t == Open then "{" else "}"
  {
    assert [t][1..] == [];
    assert FillAll([t], done, params) == [t];
    RenderOne(t);
  }

  function Long(n: nat): (z: string)
    ensures |z| == n && BraceFree(z)
  {
    seq(n, _ => 'z')
  }

  lemma {:induction false} HolesOfTokens(s: string, h: string)
    requires Hole(h) in Tokenize(s)
    ensures |h| < |s| && BraceFree(h)
  {
    RenderTokenize(s);
    HolesAreShort(Tokenize(s), h);
    var i :| 0 <= i < |Tokenize(s)| && Tokenize(s)[i] == Hole(h);
    assert TokenOk(Tokenize(s)[i]);
  }

  lemma {:induction false} HoleKeysOf(ts: seq<Token>, pre: seq<Token>, mid: seq<Token>, post: seq<Token>)
    requires ts == pre + ([Open] + mid + [Close] + post) && TokensOk(ts)
    ensures forall h :: h in HoleKeys(mid) ==> Hole(h) in ts
    ensures forall t :: t in mid && t.Hole? ==> t.key in HoleKeys(mid)
  {
    MidOk(ts, pre, mid, post);
    forall h | h in HoleKeys(mid)
      ensures Hole(h) in ts
    {
      var t :| t in mid && t.Hole? && t.key == h;
    }
  }

  /** The name the trap spells is plain and longer than the template. */
  lemma {:induction false} TrapName(s: string, pre: seq<Token>, mid: seq<Token>, post: seq<Token>, z: string)
    requires Tokenize(s) == pre + ([Open] + mid + [Close] + post) && NoStray(mid)
    requires |z| > |s| && BraceFree(z)
    ensures BraceFree(FilledText(mid, z)) && |FilledText(mid, z)| > |s|
  {
    var inner := [Open] + mid + [Close] + post;
    TokenizeNoRuns(s);
    MidOk(Tokenize(s), pre, mid, post);
    hide Tokenize, FilledText;
    NoRunsInside(pre, inner);
    assert inner[1..] == mid + [Close] + post;
    FilledTextShape(mid, post, z);
  }

  lemma {:induction false} TrapParams(mid: seq<Token>, z: string)
    requires BraceFree(z) && BraceFree(FilledText(mid, z)) && FilledText(mid, z) !in HoleKeys(mid)
    requires forall h :: h in HoleKeys(mid) ==> BraceFree(h)
    ensures PlainParams(Trap(mid, z))
    ensures Trap(mid, z).Keys == HoleKeys(mid) + {FilledText(mid, z)}
    ensures forall h :: h in HoleKeys(mid) ==> ValueText(Trap(mid, z)[h]) == z
    ensures ValueText(Trap(mid, z)[FilledText(mid, z)]) == ""
  {
    hide FilledText, HoleKeys;
  }

  lemma {:induction false} TrapOrders(order: seq<string>, k: string, keys: set<string>, params: map<string, Value>)
    requires params.Keys == keys + {k} && k !in keys
    requires IsOrder(order, keys)
    ensures IsOrder(order + [k], params.Keys) && IsOrder([k] + order, params.Keys)
  {
  }

  lemma {:induction false} MidOk(ts: seq<Token>, pre: seq<Token>, mid: seq<Token>, post: seq<Token>)
    requires ts == pre + ([Open] + mid + [Close] + post) && TokensOk(ts)
    ensures TokensOk(mid) && forall t :: t in mid ==> t in ts
  {
    forall i | 0 <= i < |mid|
      ensures mid[i] == ts[|pre| + 1 + i]
    {
    }
  }

  /** Filling the holes' own keys first works as if it were done at once. */
  lemma {:induction false} TrapFilled(s: string, ts: seq<Token>, keys: set<string>, z: string, order: seq<string>,
        params: map<string, Value>)
    requires ts == Tokenize(s) && |z| > |s| && BraceFree(z) && PlainParams(params) && keys <= params.Keys
    requires forall h :: h in keys ==> |h| < |s| && ValueText(params[h]) == z
    requires forall h :: h in order <==> h in keys
    ensures Apply(s, order, params) == Render(FillAll(ts, keys, params))
  {
    RenderTokenize(s);
    TokenizeNoRuns(s);
    FillAllNone(ts, params);
    forall done: set<string>, k | done <= keys && k in keys
      ensures Clear(FillAll(ts, done, params), k)
    {
      LongValueClear(ts, done, params, z, k);
    }
    ApplyIsFillAll(ts, {}, order, keys, params);
    assert {} + (set k | k in order) == keys;
  }

  /** The long name occurs nowhere in the template yet. */
  lemma {:induction false} TrapUntouched(s: string, k: string, v: Value)
    requires |k| > |s| && BraceFree(k) && forall h :: Hole(h) in Tokenize(s) ==> |h| < |s|
    ensures ReplacePlaceholder(s, k, v) == s
  {
    var ts := Tokenize(s);
    RenderTokenize(s);
    TokenizeNoRuns(s);
    NoRunsClear(ts, k);
    ReplaceIsFill(ts, k, ValueText(v));
    FillAbsent(ts, k, ValueText(v));
  }

  /** On a template that is not safe, two orders of some brace-free parameters give different payloads. */
  lemma {:induction false} UnsafeOrdersDiffer(s: string) returns (params: map<string, Value>, one: seq<string>,
        other: seq<string>)
    requires !Safe(Tokenize(s))
    ensures PlainParams(params) && IsOrder(one, params.Keys) && IsOrder(other, params.Keys)
    ensures Apply(s, one, params) != Apply(s, other, params)
  {
    hide *;
    var ts := Tokenize(s);
    var pre, mid, post := UnsafeSplit(ts);
    var z := Long(|s| + 1);
    var k, keys := FilledText(mid, z), HoleKeys(mid);
    TrapName(s, pre, mid, post, z);
    HoleKeysOf(ts, pre, mid, post);
    forall h | Hole(h) in ts
      ensures |h| < |s| && BraceFree(h)
    {
      HolesOfTokens(s, h);
    }
    params := Trap(mid, z);
    TrapParams(mid, z);
    var order := Enumerate(keys);
    one, other := order + [k], [k] + order;
    TrapOrders(order, k, keys, params);
    TrapFilled(s, ts, keys, z, order, params);
    TrapSprung(ts, pre, mid, post, z, keys, params);
    TrapUntouched(s, k, params[k]);
    ApplyAppend(s, order, k, params);
    ApplyFirst(s, k, order, params);
    var a, b := Render(FillAll(pre, keys, params)), Render(FillAll(post, keys, params));
    ErasingShrinks(a, k, b);
    ReplacePlaceholderIs(a + Placeholder(k) + b, k, params[k]);
  }

  lemma {:induction false} ApplyFirst(s: string, k: string, order: seq<string>, params: map<string, Value>)
    requires k in params && forall x :: x in order ==> x in params
    ensures Apply(s, [k] + order, params) == Apply(ReplacePlaceholder(s, k, params[k]), order, params)
  {
    assert ([k] + order)[1..] == order;
  }

  lemma {:induction false} ReplacePlaceholderIs(s: string, k: string, v: Value)
    ensures ReplacePlaceholder(s, k, v) == ReplaceAll(s, Placeholder(k), ValueText(v))
  {
  }

  ghost predicate OrderIrrelevant(s: string) {
    forall params: map<string, Value>, one: seq<string>, other: seq<string> ::
      PlainParams(params) && IsOrder(one, params.Keys) && IsOrder(other, params.Keys)
      ==> Apply(s, one, params) == Apply(s, other, params)
  }

  /**
    Exactly which templates expand independently of the map's iteration order, whatever the
    brace-free parameters: those where no stray open brace comes before a stray close brace.
   */
  lemma {:induction false} OrderIrrelevantIffSafe(s: string)
    ensures OrderIrrelevant(s) <==> Safe(Tokenize(s))
  {
    if Safe(Tokenize(s)) {
      forall params: map<string, Value>, one: seq<string>, other: seq<string> |
        PlainParams(params) && IsOrder(one, params.Keys) && IsOrder(other, params.Keys)
        ensures Apply(s, one, params) == Apply(s, other, params)
      {
        AnyOrderSubstitutes(s, one, params);
        AnyOrderSubstitutes(s, other, params);
      }
    } else {
      var params, one, other := UnsafeOrdersDiffer(s);
    }
  }

  /** The pattern occurs somewhere in s. */
  predicate Occurs(s: string, pattern: string)
    requires pattern != ""
    decreases |s|
  {
    |pattern| <= |s| && (s[..|pattern|] == pattern || Occurs(s[1..], pattern))
  }

  /** Longer replacements make the string longer as soon as there is one, shorter ones shorter. */
  lemma {:induction false} ReplacedLength(s: string, pattern: string, replacement: string)
    requires pattern != ""
    ensures var n, m := |ReplaceAll(s, pattern, replacement)|, |replacement| - |pattern|;
      && (m >= 0 ==> n >= |s|)
      && (m > 0 && Occurs(s, pattern) ==> n > |s|)
      && (m <= 0 ==> n <= |s|)
      && (m < 0 && Occurs(s, pattern) ==> n < |s|)
    decreases |s|
  {
    if |s| >= |pattern| {
      if s[..|pattern|] == pattern {
        ReplacedLength(s[|pattern|..], pattern, replacement);
      } else {
        ReplacedLength(s[1..], pattern, replacement);
      }
    }
  }

  lemma {:induction false} ReplacedShows(s: string, pattern: string, replacement: string)
    requires pattern != "" && |replacement| == |pattern| && replacement != pattern && Occurs(s, pattern)
    ensures ReplaceAll(s, pattern, replacement) != s
    decreases |s|
  {
    var r := ReplaceAll(s, pattern, replacement);
    if s[..|pattern|] == pattern {
      assert r[..|pattern|] == replacement;
    } else {
      ReplacedShows(s[1..], pattern, replacement);
      assert r[1..] == ReplaceAll(s[1..], pattern, replacement);
    }
  }

  lemma {:induction false} ReplacedBySame(s: string, pattern: string)
    requires pattern != ""
    ensures ReplaceAll(s, pattern, pattern) == s
    decreases |s|
  {
    if |s| >= |pattern| {
      if s[..|pattern|] == pattern {
        ReplacedBySame(s[|pattern|..], pattern);
        assert s == pattern + s[|pattern|..];
      } else {
        ReplacedBySame(s[1..], pattern);
      }
    }
  }

  lemma {:induction false} ReplacedNone(s: string, pattern: string, replacement: string)
    requires pattern != "" && !Occurs(s, pattern)
    ensures ReplaceAll(s, pattern, replacement) == s
    decreases |s|
  {
    if |s| >= |pattern| {
      ReplacedNone(s[1..], pattern, replacement);
    }
  }

  /** Replacing changes a string if and only if the pattern occurs and is not replaced by itself. */
  lemma {:induction false} ReplaceChangesIff(s: string, pattern: string, replacement: string)
    requires pattern != ""
    ensures ReplaceAll(s, pattern, replacement) == s <==> !Occurs(s, pattern) || replacement == pattern
  {
    hide ReplaceAll, Occurs;
    if !Occurs(s, pattern) {
      ReplacedNone(s, pattern, replacement);
    } else if replacement == pattern {
      ReplacedBySame(s, pattern);
    } else if |replacement| == |pattern| {
      ReplacedShows(s, pattern, replacement);
    } else {
      ReplacedLength(s, pattern, replacement);
    }
  }

  /**
    With braces in the values it depends on the values even on the simplest template: exactly when the first value
    spells the second placeholder somewhere, and its own value is another one, the two orders differ.
   */
  lemma {:induction false} BracedValueIff(a: string, b: string, v: string, w: string)
    requires BraceFree(a) && BraceFree(b) && a != b
    ensures var params, s := map[a := Text(v), b := Text(w)], Placeholder(a);
      Apply(s, [a, b], params) == Apply(s, [b, a], params) <==> !Occurs(v, Placeholder(b)) || w == Placeholder(b)
  {
    hide ReplaceAll, Apply, Occurs;
    var params := map[a := Text(v), b := Text(w)];
    ReplaceHit("", a, v);
    ReplaceOtherHole(a, "", b, w);
    ReplaceShort("", a, v);
    ReplaceShort("", b, w);
    assert Placeholder(a) + "" == Placeholder(a) && v + "" == v;
    ApplyTwo(Placeholder(a), a, b, params);
    ApplyTwo(Placeholder(a), b, a, params);
    ReplaceChangesIff(v, Placeholder(b), w);
  }

  lemma {:induction false} ApplyTwo(s: string, a: string, b: string, params: map<string, Value>)
    requires a in params && b in params
    ensures Apply(s, [a, b], params) == ReplacePlaceholder(ReplacePlaceholder(s, a, params[a]), b, params[b])
  {
    hide ReplacePlaceholder;
    ApplyFirst(s, a, [b], params);
    assert [a] + [b] == [a, b];
    ApplyAppend(ReplacePlaceholder(s, a, params[a]), [], b, params);
    assert [] + [b] == [b];
  }

  // ---- the loop --------------------------------------------------------------------------------

  lemma {:induction false} DigitsPlain(n: nat)
    ensures BraceFree(Digits(n))
  {
    if n >= 10 {
      DigitsPlain(n / 10);
      DigitsPlain(n % 10);
    }
  }

  /** Numbers and flags never bring in braces. */
  lemma {:induction false} ScalarsPlain(v: Value)
    requires v.Whole? || v.Flag?
    ensures BraceFree(ValueText(v))
  {
    if v.Whole? {
      DigitsPlain(if v.n < 0 then -v.n else v.n);
    }
  }

  // ---- what the values are rendered as ----------------------------------------------------------

  /** The value of a digit string, read from left to right. */
  function ReadDigits(s: string): int {
    if s == "" then 0 else 10 * ReadDigits(s[..|s| - 1]) + (s[|s| - 1] as int - '0' as int)
  }

  /** The value of a decimal number with an optional sign. */
  function ReadInt(s: string): int {
    if s != "" && s[0] == '-' then -ReadDigits(s[1..]) else ReadDigits(s)
  }

  /** At least one digit, nothing else, and no leading zero. */
  predicate IsDecimal(s: string) {
    && s != ""
    && (forall i :: 0 <= i < |s| ==> '0' <= s[i] <= '9')
    && (|s| > 1 ==> s[0] != '0')
  }

  lemma {:induction false} OneDigit(n: nat)
    requires n < 10
    ensures var s := Digits(n);
      |s| == 1 && s[0] as int == '0' as int + n && (s[0] == '0' <==> n == 0)
  {
  }

  lemma {:induction false} DigitsRead(n: nat)
    ensures IsDecimal(Digits(n)) && ReadDigits(Digits(n)) == n && (Digits(n)[0] == '0' <==> n == 0)
  {
    if n < 10 {
      OneDigit(n);
      assert Digits(n)[..0] == "";
    } else {
      var front, last := Digits(n / 10), Digits(n % 10);
      OneDigit(n % 10);
      DigitsRead(n / 10);
      assert (front + last)[..|front|] == front;
    }
  }

  /** A whole number is rendered in decimal, with a minus sign exactly when it is negative, and reads back. */
  lemma {:induction false} WholeReadsBack(n: int)
    ensures var t := ValueText(Whole(n));
      && t != "" && (t[0] == '-' <==> n < 0)
      && IsDecimal(if n < 0 then t[1..] else t)
      && ReadInt(t) == n
  {
    hide Digits, ReadDigits;
    DigitsRead(if n < 0 then -n else n);
    if n < 0 {
      assert ("-" + Digits(-n))[1..] == Digits(-n);
    }
  }

  /** Different whole numbers are rendered differently. */
  lemma {:induction false} WholeInjective(m: int, n: int)
    ensures ValueText(Whole(m)) == ValueText(Whole(n)) <==> m == n
  {
    hide ValueText;
    WholeReadsBack(m);
    WholeReadsBack(n);
  }

  /** A template with one hole and plain text around it gives that text with the value's rendering in the hole. */
  lemma {:induction false} OneHole(before: string, key: string, after: string, v: Value, order: seq<string>)
    requires BraceFree(before) && BraceFree(key) && BraceFree(after) && IsOrder(order, {key})
    ensures order == [key]
    ensures Apply(before + Placeholder(key) + after, order, map[key := v]) == before + ValueText(v) + after
  {
    hide ReplaceAll, ValueText, Apply;
    OnlyOrder(order, key);
    var params, text := map[key := v], ValueText(v);
    assert before + Placeholder(key) + after == before + (Placeholder(key) + after);
    ReplaceSkips(before, Placeholder(key) + after, key, text);
    ReplaceHit(after, key, text);
    ReplaceSkips(after, "", key, text);
    ReplaceShort("", key, text);
    assert after + "" == after;
    assert before + (text + after) == before + text + after;
    ApplyFirst(before + Placeholder(key) + after, key, [], params);
    assert [key] + [] == [key];
    ApplyNone(ReplacePlaceholder(before + Placeholder(key) + after, key, v), params);
  }

  lemma {:induction false} ApplyNone(s: string, params: map<string, Value>)
    ensures Apply(s, [], params) == s
  {
  }

  lemma {:induction false} OnlyOrder(order: seq<string>, key: string)
    requires IsOrder(order, {key})
    ensures order == [key]
  {
    assert key in order;
    forall i | 0 <= i < |order|
      ensures order[i] == key
    {
      assert order[i] in order;
    }
    if |order| > 1 {
      FirstTwoDiffer(order);
    }
  }

  lemma {:induction false} FirstTwoDiffer(order: seq<string>)
    requires Distinct(order) && |order| > 1
    ensures order[0] != order[1]
  {
  }

  /**
    So the payload of a one-hole template is the text around the hole and in it `1` or `0` for a flag, a string as it
    is, and a whole number in decimal that reads back as that number.
   */
  lemma {:induction false} OneHolePayload(before: string, key: string, after: string, v: Value, order: seq<string>)
    returns (text: string)
    requires BraceFree(before) && BraceFree(key) && BraceFree(after) && IsOrder(order, {key})
    ensures forall k :: k in order ==> k == key
    ensures Apply(before + Placeholder(key) + after, order, map[key := v]) == before + text + after
    ensures v.Flag? ==> text == if v.b then "1" else "0"
    ensures v.Text? ==> text == v.s
    ensures v.Whole? ==> ReadInt(text) == v.n && IsDecimal(if v.n < 0 then text[1..] else text)
  {
    OneHole(before, key, after, v, order);
    text := ValueText(v);
    if v.Whole? {
      WholeReadsBack(v.n);
    }
  }

  method FormatPayload(fmt: string, params: map<string, Value>) returns (result: string)
    ensures exists order :: IsOrder(order, params.Keys) && result == Apply(fmt, order, params)
    ensures Safe(Tokenize(fmt)) && PlainParams(params) ==> result == Substitute(fmt, params)
    ensures Safe(FillAll(Tokenize(fmt), params.Keys, params)) && PlainNames(params) ==>
      result == Substitute(fmt, params)
  {
    ghost var order: seq<string> := [];
    result := fmt;
    var rest := params.Keys;
    if fmt != "" {
      while rest != {}
        invariant rest <= params.Keys
        invariant IsOrder(order, params.Keys - rest)
        invariant result == Apply(fmt, order, params)
        decreases rest
      {
        hide ReplacePlaceholder;
        var k :| k in rest;
        ApplyAppend(fmt, order, k, params);
        VisitNext(order, params.Keys, rest, k);
        result := ReplacePlaceholder(result, k, params[k]);
        order, rest := order + [k], rest - {k};
      }
    } else {
      order := Enumerate(params.Keys);
      ApplyEmpty(order, params);
    }
    assert IsOrder(order, params.Keys);
    if Safe(Tokenize(fmt)) && PlainParams(params) {
      AnyOrderSubstitutes(fmt, order, params);
    }
    if Safe(FillAll(Tokenize(fmt), params.Keys, params)) && PlainNames(params) {
      SafeResultSubstitutes(fmt, order, params);
    }
  }

  lemma {:induction false} ApplyEmpty(order: seq<string>, params: map<string, Value>)
    requires forall k :: k in order ==> k in params
    ensures Apply("", order, params) == ""
    decreases |order|
  {
    if order != [] {
      ReplaceShort("", order[0], ValueText(params[order[0]]));
      ApplyEmpty(order[1..], params);
    }
  }
}
