/** What the console's argument list means: splitting at commas, trimming and unquoting, as
    demo_cmd_execute does between "(" and ")" (demo/console/wm_demo_console_task.c), and which
    lists of strings survive being quoted, escaped and comma-joined. */
module ConsoleArgs {
  import opened CTypes

  const QUOTE: char := '"'
  const ESC: char := '\\'
  const COMMA: char := ','
  const SPACE: char := ' '

  function Last(s: string): char
    requires s != []
  {
    s[|s| - 1]
  }

  // ---- splitting

  /** A comma that ends an argument: any comma after a bare argument, and after a quoted one only
      a comma right behind a quote that is not itself behind a backslash. */
  predicate IsSeparator(p: string, n: nat)
    requires n < |p|
  {
    && p[n] == COMMA
    && (p[0] == QUOTE ==> n >= 2 && p[n - 1] == QUOTE && (n < 3 || p[n - 2] != ESC))
  }

  function FirstSeparator(p: string, from: nat): (r: Option<nat>)
    requires from <= |p|
    ensures r.Some? ==> from <= r.value < |p| && IsSeparator(p, r.value)
    ensures r.Some? ==> forall n | from <= n < r.value :: !IsSeparator(p, n)
    ensures r.None? ==> forall n | from <= n < |p| :: !IsSeparator(p, n)
    decreases |p| - from
  {
    if from == |p| then None
    else if IsSeparator(p, from) then Some(from)
    else FirstSeparator(p, from + 1)
  }

  /** At most limit arguments; what follows the last one is dropped. */
  function Split(p: string, limit: nat): (args: seq<string>)
    requires limit >= 1
    ensures 1 <= |args| <= limit
    decreases limit
  {
    match FirstSeparator(p, 0)
    case None => [p]
    case Some(c) => [p[..c]] + if limit == 1 then [] else Split(p[c + 1..], limit - 1)
  }

  /** All arguments of the text. */
  function SplitAll(p: string): (args: seq<string>)
    ensures |args| >= 1
    decreases |p|
  {
    match FirstSeparator(p, 0)
    case None => [p]
    case Some(c) => [p[..c]] + SplitAll(p[c + 1..])
  }

  /** The limit cuts off whole arguments behind the first ones, and nothing else. */
  lemma {:induction false} SplitIsPrefix(p: string, limit: nat)
    requires limit >= 1
    ensures Split(p, limit) == SplitAll(p)[..Min(limit, |SplitAll(p)|)]
    decreases limit
  {
    hide Split, SplitAll, FirstSeparator;
    SplitUnfolds(p, limit);
    var c := FirstSeparator(p, 0);
    if c.Some? && limit > 1 {
      SplitIsPrefix(p[c.value + 1..], limit - 1);
      ConsPrefix(p[..c.value], SplitAll(p[c.value + 1..]), limit);
    }
  }

  lemma SplitUnfolds(p: string, limit: nat)
    requires limit >= 1
    ensures var c := FirstSeparator(p, 0);
      && (c.None? ==> SplitAll(p) == [p] && Split(p, limit) == [p])
      && (c.Some? ==>
          && SplitAll(p) == [p[..c.value]] + SplitAll(p[c.value + 1..])
          && Split(p, limit) == [p[..c.value]] + if limit == 1 then [] else Split(p[c.value + 1..], limit - 1))
  {
    hide FirstSeparator;
  }

  lemma ConsPrefix(x: string, s: seq<string>, n: nat)
    requires n > 1
    ensures ([x] + s)[..Min(n, |s| + 1)] == [x] + s[..Min(n - 1, |s|)]
  {
  }

  lemma SplitCount(p: string, limit: nat)
    requires limit >= 1
    ensures |Split(p, limit)| == if limit <= |SplitAll(p)| then limit else |SplitAll(p)|
  {
    hide Split, SplitAll;
    SplitIsPrefix(p, limit);
  }

  /** ss are the pieces of p between its separators. */
  predicate IsCut(p: string, ss: seq<string>)
    decreases |ss|
  {
    && ss != [] && |ss[0]| <= |p| && ss[0] == p[..|ss[0]|]
    && (forall n | 0 <= n < |ss[0]| :: !IsSeparator(p, n))
    && if |ss[0]| == |p| then |ss| == 1 else IsSeparator(p, |ss[0]|) && IsCut(p[|ss[0]| + 1..], ss[1..])
  }

  lemma {:induction false} SplitAllCuts(p: string)
    ensures IsCut(p, SplitAll(p))
    decreases |p|
  {
    var c := FirstSeparator(p, 0);
    if c.Some? {
      SplitAllCuts(p[c.value + 1..]);
      assert SplitAll(p)[1..] == SplitAll(p[c.value + 1..]);
    } else {
      assert p[..|p|] == p;
    }
  }

  function Commas(p: string): nat {
    if p == [] then 0 else Commas(p[1..]) + if p[0] == COMMA then 1 else 0
  }

  lemma {:induction false} CommasAppend(p: string, q: string)
    ensures Commas(p + q) == Commas(p) + Commas(q)
  {
    if p == [] {
      assert p + q == q;
    } else {
      CommasAppend(p[1..], q);
      assert (p + q)[1..] == p[1..] + q;
    }
  }

  lemma {:induction false} NoCommas(p: string)
    requires COMMA !in p
    ensures Commas(p) == 0
  {
    if p != [] {
      NoCommas(p[1..]);
    }
  }

  lemma NoCommaBefore(p: string, n: nat)
    requires n <= |p| && QUOTE !in p && forall i | 0 <= i < n :: !IsSeparator(p, i)
    ensures Commas(p[..n]) == 0
  {
    forall i | 0 <= i < n ensures p[..n][i] != COMMA {
      assert p[0] in p && !IsSeparator(p, i);
    }
    NoCommas(p[..n]);
  }

  /** Without quotes every comma separates. */
  lemma {:induction false} PlainSplit(p: string)
    requires QUOTE !in p
    ensures |SplitAll(p)| == Commas(p) + 1
    decreases |p|
  {
    var c := FirstSeparator(p, 0);
    if c.Some? {
      NoCommaBefore(p, c.value);
      var front, rest := p[..c.value], p[c.value + 1..];
      PlainSplit(rest);
      CommasAppend(front, [COMMA] + rest);
      assert Commas([COMMA] + rest) == Commas(rest) + 1 by { assert ([COMMA] + rest)[1..] == rest; }
      assert p == front + ([COMMA] + rest);
    } else {
      NoCommaBefore(p, |p|);
      assert p[..|p|] == p;
    }
  }

  // ---- one argument

  function TrimLeft(s: string): (t: string)
    ensures |t| <= |s|
  {
    if s != [] && s[0] == SPACE then TrimLeft(s[1..]) else s
  }

  function TrimRight(s: string): string {
    if s != [] && Last(s) == SPACE then TrimRight(s[..|s| - 1]) else s
  }

  function Trim(s: string): string { TrimRight(TrimLeft(s)) }

  predicate AllSpaces(s: string) { forall c <- s :: c == SPACE }

  /** Trimming removes all spaces at either end and nothing else. */
  lemma TrimMeans(s: string) returns (before: string, after: string)
    ensures s == before + Trim(s) + after && AllSpaces(before) && AllSpaces(after)
    ensures Trim(s) != [] ==> Trim(s)[0] != SPACE && Last(Trim(s)) != SPACE
  {
    before := TrimLeftMeans(s);
    after := TrimRightMeans(TrimLeft(s));
    assert before + (Trim(s) + after) == before + Trim(s) + after;
    assert Trim(s) != [] ==> Trim(s)[0] == TrimLeft(s)[0];
  }

  lemma {:induction false} TrimLeftMeans(s: string) returns (before: string)
    ensures s == before + TrimLeft(s) && AllSpaces(before)
    ensures TrimLeft(s) != [] ==> TrimLeft(s)[0] != SPACE
  {
    before := [];
    if s != [] && s[0] == SPACE {
      before := TrimLeftMeans(s[1..]);
      before := [SPACE] + before;
      assert s == [SPACE] + s[1..];
    }
  }

  lemma {:induction false} TrimRightMeans(s: string) returns (after: string)
    ensures s == TrimRight(s) + after && AllSpaces(after)
    ensures TrimRight(s) != [] ==> Last(TrimRight(s)) != SPACE
  {
    after := [];
    if s != [] && Last(s) == SPACE {
      after := TrimRightMeans(s[..|s| - 1]);
      after := after + [SPACE];
      assert s == s[..|s| - 1] + [SPACE];
    }
  }

  /** Drop each backslash and keep the character behind it, whatever it is. */
  function Unescape(s: string): string {
    if s == [] then []
    else if s[0] != ESC then [s[0]] + Unescape(s[1..])
    else if |s| == 1 then []
    else [s[1]] + Unescape(s[2..])
  }

  /** The quoted form is recognised only up to 256 characters: the length is kept in a u8. */
  predicate IsQuoted(s: string) {
    2 <= |s| <= 256 && s[0] == QUOTE && Last(s) == QUOTE
  }

  /** An unrecognised quoted argument only loses its first quote. */
  function Unquote(s: string): string {
    if s == [] || s[0] != QUOTE then s
    else if IsQuoted(s) then Unescape(s[1..|s| - 1])
    else s[1..]
  }

  /** Text that does not start with a quote stays; a quoted text of at most 256 characters loses its quotes and
      backslashes, any other only its first quote. */
  lemma UnquoteMeans(s: string, t: string)
    ensures s == [] || s[0] != QUOTE ==> Unquote(s) == s
    ensures s == [QUOTE] + t + [QUOTE] && |t| <= 254 ==> Unquote(s) == Unescape(t)
    ensures s == [QUOTE] + t && (t == [] || Last(t) != QUOTE || |t| > 255) ==> Unquote(s) == t
  {
    hide Unescape;
    if s == [QUOTE] + t + [QUOTE] {
      assert s[1..|s| - 1] == t && Last(s) == QUOTE;
    } else if s == [QUOTE] + t {
      assert s[1..] == t && (t != [] ==> Last(s) == Last(t));
    }
  }

  datatype Param = Null | Text(text: string) | Number(n: int)

  /** A string parameter; an empty argument is NULL. */
  function TextParam(arg: string): Param {
    if Trim(arg) == [] then Null else Text(Unquote(Trim(arg)))
  }

  function TextParams(args: seq<string>): seq<Param> {
    seq(|args|, i requires 0 <= i < |args| => TextParam(args[i]))
  }

  // ---- the encoder a user of the console applies

  function Escape(s: string): string {
    if s == [] then []
    else (if s[0] == QUOTE || s[0] == ESC then [ESC, s[0]] else [s[0]]) + Escape(s[1..])
  }

  function Quoted(s: string): (e: string)
    ensures |e| >= 2 && e[0] == QUOTE && Last(e) == QUOTE
  {
    [QUOTE] + Escape(s) + [QUOTE]
  }

  function Joined(l: seq<string>): (p: string)
    requires l != []
    ensures |p| >= 2 && p[0] == QUOTE && Last(p) == QUOTE
  {
    if |l| == 1 then Quoted(l[0]) else Quoted(l[0]) + [COMMA] + Joined(l[1..])
  }

  // ---- escaping is undone by unescaping

  lemma UnescapePlain(c: char, r: string)
    requires c != ESC
    ensures Unescape([c] + r) == [c] + Unescape(r)
  {
    assert ([c] + r)[1..] == r;
  }

  lemma UnescapePair(c: char, r: string)
    ensures Unescape([ESC, c] + r) == [c] + Unescape(r)
  {
    assert ([ESC, c] + r)[2..] == r;
  }

  lemma EscapeCons(s: string, t: string)
    ensures Escape(s) + t
         == if s == [] then t
            else (if s[0] == QUOTE || s[0] == ESC then [ESC, s[0]] else [s[0]]) + (Escape(s[1..]) + t)
  {
  }

  lemma {:induction false} UnescapeEscaped(s: string, t: string)
    ensures Unescape(Escape(s) + t) == s + Unescape(t)
  {
    hide Unescape, Escape;
    if s == [] {
      EscapeCons(s, t);
    } else {
      var c, rest := s[0], Escape(s[1..]) + t;
      UnescapeEscaped(s[1..], t);
      EscapeCons(s, t);
      if c == QUOTE || c == ESC {
        UnescapePair(c, rest);
      } else {
        UnescapePlain(c, rest);
      }
      assert s + Unescape(t) == [c] + (s[1..] + Unescape(t));
    }
  }

  lemma {:induction false} EscapedShape(s: string)
    ensures |Escape(s)| >= |s|
    ensures s != [] ==> Escape(s) != [] && Last(Escape(s)) == Last(s)
    ensures forall j | 0 <= j < |Escape(s)| && Escape(s)[j] == QUOTE :: j >= 1 && Escape(s)[j - 1] == ESC
  {
    if s != [] {
      EscapedShape(s[1..]);
    }
  }

  predicate EndsInBackslash(s: string) { s != [] && Last(s) == ESC }

  // ---- where an encoded argument ends

  lemma NoInnerSeparator(s: string, rest: string, n: nat)
    requires n < |Quoted(s)|
    ensures !IsSeparator(Quoted(s) + rest, n)
  {
    EscapedShape(s);
    var p := Quoted(s) + rest;
    if n >= 2 && p[n] == COMMA && p[n - 1] == QUOTE {
      assert p[n - 1] == Escape(s)[n - 2];
    }
  }

  /** The comma after an encoded string is seen exactly when the string does not end in a backslash. */
  lemma OuterSeparator(s: string, rest: string)
    ensures IsSeparator(Quoted(s) + [COMMA] + rest, |Quoted(s)|) <==> !EndsInBackslash(s)
  {
    EscapedShape(s);
    var n := |Quoted(s)|;
    var p := Quoted(s) + [COMMA] + rest;
    if s != [] {
      assert p[n - 2] == Last(Escape(s));
    } else {
      assert n == 2;
    }
  }

  lemma FirstIsAt(p: string, from: nat, c: nat)
    requires from <= c < |p| && IsSeparator(p, c)
    requires forall n | from <= n < c :: !IsSeparator(p, n)
    ensures FirstSeparator(p, from) == Some(c)
  {
  }

  lemma FirstArgument(s: string, rest: string)
    requires !EndsInBackslash(s)
    ensures FirstSeparator(Quoted(s) + [COMMA] + rest, 0) == Some(|Quoted(s)|)
  {
    var p := Quoted(s) + [COMMA] + rest;
    OuterSeparator(s, rest);
    forall n | 0 <= n < |Quoted(s)| ensures !IsSeparator(p, n) {
      NoInnerSeparator(s, [COMMA] + rest, n);
      assert Quoted(s) + ([COMMA] + rest) == p;
    }
    FirstIsAt(p, 0, |Quoted(s)|);
  }

  lemma OnlyArgument(s: string)
    ensures FirstSeparator(Quoted(s), 0) == None
  {
    forall n | 0 <= n < |Quoted(s)| ensures !IsSeparator(Quoted(s), n) {
      NoInnerSeparator(s, [], n);
      assert Quoted(s) + [] == Quoted(s);
    }
  }

  // ---- decoding one argument

  lemma QuotedIsTrim(a: string)
    requires |a| >= 1 && a[0] == QUOTE && Last(a) == QUOTE
    ensures Trim(a) == a
  {
  }

  lemma DecodeQuoted(s: string)
    ensures TextParam(Quoted(s)) == Text(s) <==> |Quoted(s)| <= 256
  {
    var e := Quoted(s);
    QuotedIsTrim(e);
    EscapedShape(s);
    if |e| <= 256 {
      UnescapeEscaped(s, []);
      assert e[1..|e| - 1] == Escape(s) + [];
      assert s + Unescape([]) == s;
    }
  }

  lemma {:induction false} EscapePlain(s: string)
    requires QUOTE !in s && ESC !in s
    ensures Escape(s) == s
  {
    if s != [] {
      EscapePlain(s[1..]);
    }
  }

  /** 255 plain characters, whose encoding has 257, do not come back. */
  lemma TooLong()
    ensures var s := seq(255, _ => 'a');
            |Quoted(s)| == 257 && TextParam(Quoted(s)) != Text(s)
  {
    var s := seq(255, _ => 'a');
    EscapePlain(s);
    DecodeQuoted(s);
  }

  /** A string swallowed together with its neighbour never decodes to itself. */
  lemma DecodeMerged(s: string, a: string)
    requires |a| >= |Quoted(s)| + 2 && a[..|Quoted(s)|] == Quoted(s) && Last(a) == QUOTE
    ensures TextParam(a) != Text(s)
  {
    var n := |Quoted(s)|;
    assert a[0] == a[..n][0] && a[n - 1] == a[..n][n - 1];
    QuotedIsTrim(a);
    if IsQuoted(a) {
      MergedTail(s, a);
      var t := a[n - 1..|a| - 1];
      hide Unescape, Trim, Escape;
      UnescapeEscaped(s, t);
      UnescapePlain(t[0], t[1..]);
      assert t == [t[0]] + t[1..];
      assert |s + Unescape(t)| > |s|;
    } else {
      EscapedShape(s);
      assert |a[1..]| > |s|;
    }
  }

  lemma MergedTail(s: string, a: string)
    requires |a| >= |Quoted(s)| + 2 && a[..|Quoted(s)|] == Quoted(s)
    ensures a[1..|a| - 1] == Escape(s) + a[|Quoted(s)| - 1..|a| - 1]
  {
    hide Escape;
    var n := |Quoted(s)|;
    assert a[1..n - 1] == a[..n][1..n - 1] == Quoted(s)[1..n - 1] == Escape(s);
    assert a[1..|a| - 1] == a[1..n - 1] + a[n - 1..|a| - 1];
  }

  lemma MergedArgument(s: string, rest: string)
    requires EndsInBackslash(s) && rest != [] && Last(rest) == QUOTE
    ensures var p := Quoted(s) + [COMMA] + rest;
            var c := FirstSeparator(p, 0);
            TextParam(if c.Some? then p[..c.value] else p) != Text(s)
  {
    hide TextParam, Quoted;
    var n := |Quoted(s)|;
    var p := Quoted(s) + [COMMA] + rest;
    OuterSeparator(s, rest);
    var c := FirstSeparator(p, 0);
    var a := if c.Some? then p[..c.value] else p;
    assert Quoted(s) + ([COMMA] + rest) == p;
    if c.Some? {
      if c.value < n {
        NoInnerSeparator(s, [COMMA] + rest, c.value);
      }
      assert c.value >= n + 1;
      assert p[0] == QUOTE;
      assert Last(a) == p[c.value - 1] == QUOTE;
      assert p[n] == COMMA;
    }
    assert a[..n] == Quoted(s);
    DecodeMerged(s, a);
  }

  // ---- the whole list

  /** The i-th string of the list gets through: its encoding is at most 256 characters long and,
      unless it is the last of the list, it does not end in a backslash. */
  predicate Survives(l: seq<string>, i: nat)
    requires i < |l|
  {
    |Quoted(l[i])| <= 256 && (i + 1 < |l| ==> !EndsInBackslash(l[i]))
  }

  function Texts(l: seq<string>, n: nat): seq<Param>
    requires n <= |l|
  {
    seq(n, i requires 0 <= i < n => Text(l[i]))
  }

  predicate AllSurvive(l: seq<string>, n: nat)
    requires n <= |l|
  {
    forall i | 0 <= i < n :: Survives(l, i)
  }

  lemma AllSurviveCons(l: seq<string>, n: nat)
    requires 1 <= n <= |l|
    ensures AllSurvive(l, n) <==> Survives(l, 0) && AllSurvive(l[1..], n - 1)
  {
    assert forall i | 0 <= i < n - 1 :: Survives(l[1..], i) <==> Survives(l, i + 1);
    assert forall i | 1 <= i < n :: Survives(l, i) <==> Survives(l[1..], i - 1);
  }

  lemma TextsCons(l: seq<string>, n: nat)
    requires 1 <= n <= |l|
    ensures Texts(l, n) == [Text(l[0])] + Texts(l[1..], n - 1)
  {
  }

  lemma TextParamsCons(a: string, args: seq<string>)
    ensures TextParams([a] + args) == [TextParam(a)] + TextParams(args)
  {
  }

  lemma SplitSurvivor(l: seq<string>, limit: nat)
    requires |l| > 1 && limit >= 1 && !EndsInBackslash(l[0])
    ensures Split(Joined(l), limit)
         == [Quoted(l[0])] + if limit == 1 then [] else Split(Joined(l[1..]), limit - 1)
  {
    var n := |Quoted(l[0])|;
    FirstArgument(l[0], Joined(l[1..]));
    assert Joined(l)[..n] == Quoted(l[0]) && Joined(l)[n + 1..] == Joined(l[1..]);
  }

  lemma SplitMerged(l: seq<string>, limit: nat)
    requires |l| > 1 && limit >= 1 && EndsInBackslash(l[0])
    ensures TextParam(Split(Joined(l), limit)[0]) != Text(l[0])
  {
    MergedArgument(l[0], Joined(l[1..]));
  }

  lemma ConsEqual<T>(a: T, b: T, s: seq<T>, t: seq<T>)
    ensures [a] + s == [b] + t <==> a == b && s == t
  {
    if [a] + s == [b] + t {
      assert a == ([a] + s)[0] == b;
      assert s == ([a] + s)[1..] == t;
    }
  }

  /** For every list and every argument limit: the console decodes the encoded list to its first
      min(length, limit) strings if and only if each of those strings survives. */
  lemma {:induction false} RoundTrip(l: seq<string>, limit: nat)
    requires l != [] && limit >= 1
    ensures TextParams(Split(Joined(l), limit)) == Texts(l, Min(|l|, limit))
       <==> AllSurvive(l, Min(|l|, limit))
    decreases limit
  {
    hide Split, TextParams, TextParam, Texts, AllSurvive, Joined, Quoted, FirstSeparator;
    var m := Min(|l|, limit);
    AllSurviveCons(l, m);
    TextsCons(l, m);
    if |l| > 1 && EndsInBackslash(l[0]) {
      SplitMerged(l, limit);
      var args := Split(Joined(l), limit);
      TextParamsCons(args[0], args[1..]);
      assert args == [args[0]] + args[1..];
      ConsEqual(TextParam(args[0]), Text(l[0]), TextParams(args[1..]), Texts(l[1..], m - 1));
    } else {
      var args := if |l| == 1 || limit == 1 then [] else Split(Joined(l[1..]), limit - 1);
      assert Split(Joined(l), limit) == [Quoted(l[0])] + args by {
        if |l| == 1 { SplitSingle(l, limit); } else { SplitSurvivor(l, limit); }
      }
      TextParamsCons(Quoted(l[0]), args);
      DecodeQuoted(l[0]);
      ConsEqual(TextParam(Quoted(l[0])), Text(l[0]), TextParams(args), Texts(l[1..], m - 1));
      if |l| == 1 || limit == 1 {
        NoneLeft(l[1..]);
      } else {
        RoundTrip(l[1..], limit - 1);
      }
    }
  }

  lemma SplitSingle(l: seq<string>, limit: nat)
    requires |l| == 1 && limit >= 1
    ensures Split(Joined(l), limit) == [Quoted(l[0])]
  {
    OnlyArgument(l[0]);
  }

  lemma NoneLeft(l: seq<string>)
    ensures TextParams([]) == Texts(l, 0) == [] && AllSurvive(l, 0)
  {
  }

  /** The survivors are split off one by one, quotes and all. */
  lemma {:induction false} SplitSurvivors(l: seq<string>, limit: nat)
    requires l != [] && limit >= 1 && AllSurvive(l, Min(|l|, limit))
    ensures |Split(Joined(l), limit)| == Min(|l|, limit)
    ensures forall i | 0 <= i < Min(|l|, limit) :: Split(Joined(l), limit)[i] == Quoted(l[i])
    decreases limit
  {
    hide Split, AllSurvive, Joined, Quoted;
    AllSurviveCons(l, Min(|l|, limit));
    if |l| == 1 {
      SplitSingle(l, limit);
    } else {
      SplitSurvivor(l, limit);
      if limit > 1 {
        SplitSurvivors(l[1..], limit - 1);
      }
    }
  }

  // ---- all parameters of a command

  /** The j-th parameter, or None if it is a number that strtodec rejects. */
  function ParamOf(isNumber: nat -> bool, strtodec: string -> Option<int>, j: nat, arg: string): Option<Param> {
    if !isNumber(j) then Some(TextParam(arg))
    else if Trim(arg) == [] then Some(Number(-1))
    else match strtodec(Trim(arg))
         case None => None
         case Some(n) => Some(Number(n))
  }

  function Params(isNumber: nat -> bool, strtodec: string -> Option<int>, args: seq<string>): (r: Option<seq<Param>>)
    ensures r.Some? ==> |r.value| == |args|
  {
    if args == [] then Some([]) else
      var last := |args| - 1;
      match Params(isNumber, strtodec, args[..last])
      case None => None
      case Some(ps) =>
        match ParamOf(isNumber, strtodec, last, args[last])
        case None => None
        case Some(p) => Some(ps + [p])
  }

  /** A number that strtodec does not take. */
  predicate Rejects(number: bool, strtodec: string -> Option<int>, t: string) {
    number && t != [] && strtodec(t).None?
  }

  /** An empty argument gives -1 or NULL, a number what strtodec makes of it, and a text the unquoted text. */
  predicate IsParam(p: Param, number: bool, strtodec: string -> Option<int>, t: string) {
    if t == [] then p == if number then Number(-1) else Null
    else if number then p.Number? && strtodec(t) == Some(p.n)
    else p == Text(Unquote(t))
  }

  lemma ParamMeans(isNumber: nat -> bool, strtodec: string -> Option<int>, j: nat, arg: string)
    ensures var p, t := ParamOf(isNumber, strtodec, j, arg), Trim(arg);
      && (p.None? <==> Rejects(isNumber(j), strtodec, t))
      && (p.Some? ==> IsParam(p.value, isNumber(j), strtodec, t))
  {
    hide Trim, Unquote;
  }

  lemma ParamsLast(isNumber: nat -> bool, strtodec: string -> Option<int>, args: seq<string>)
    requires args != []
    ensures var last := |args| - 1;
      var before, p := Params(isNumber, strtodec, args[..last]), ParamOf(isNumber, strtodec, last, args[last]);
      Params(isNumber, strtodec, args) == if before.None? || p.None? then None else Some(before.value + [p.value])
  {
  }

  lemma {:induction false} ParamsReject(isNumber: nat -> bool, strtodec: string -> Option<int>, args: seq<string>, j: nat)
    requires j < |args| && Rejects(isNumber(j), strtodec, Trim(args[j]))
    ensures Params(isNumber, strtodec, args).None?
  {
    hide Params, ParamOf, Rejects, Trim;
    var last := |args| - 1;
    ParamsLast(isNumber, strtodec, args);
    ParamMeans(isNumber, strtodec, last, args[last]);
    if j < last {
      ParamsReject(isNumber, strtodec, args[..last], j);
    }
  }

  lemma {:induction false} ParamsRejected(isNumber: nat -> bool, strtodec: string -> Option<int>, args: seq<string>)
      returns (j: nat)
    requires Params(isNumber, strtodec, args).None?
    ensures j < |args| && Rejects(isNumber(j), strtodec, Trim(args[j]))
  {
    assert args != [];
    hide Params, ParamOf, Rejects, Trim;
    j := |args| - 1;
    ParamsLast(isNumber, strtodec, args);
    ParamMeans(isNumber, strtodec, j, args[j]);
    if Params(isNumber, strtodec, args[..j]).None? {
      j := ParamsRejected(isNumber, strtodec, args[..j]);
    }
  }

  lemma {:induction false} ParamsEach(isNumber: nat -> bool, strtodec: string -> Option<int>, args: seq<string>, j: nat)
    requires Params(isNumber, strtodec, args).Some? && j < |args|
    ensures IsParam(Params(isNumber, strtodec, args).value[j], isNumber(j), strtodec, Trim(args[j]))
  {
    hide Params, ParamOf, IsParam, Trim;
    var last := |args| - 1;
    ParamsLast(isNumber, strtodec, args);
    ParamMeans(isNumber, strtodec, last, args[last]);
    if j < last {
      ParamsEach(isNumber, strtodec, args[..last], j);
    }
  }

  /** The command is rejected exactly when some number is; otherwise every argument gives its own parameter. */
  lemma ParamsMeans(isNumber: nat -> bool, strtodec: string -> Option<int>, args: seq<string>)
    ensures Params(isNumber, strtodec, args).None?
       <==> exists j: nat :: j < |args| && Rejects(isNumber(j), strtodec, Trim(args[j]))
    ensures Params(isNumber, strtodec, args).Some? ==> forall j: nat | j < |args| ::
      IsParam(Params(isNumber, strtodec, args).value[j], isNumber(j), strtodec, Trim(args[j]))
  {
    hide Params, IsParam, Rejects, Trim;
    if Params(isNumber, strtodec, args).None? {
      var j := ParamsRejected(isNumber, strtodec, args);
    } else {
      forall j: nat | j < |args|
        ensures IsParam(Params(isNumber, strtodec, args).value[j], isNumber(j), strtodec, Trim(args[j]))
      {
        ParamsEach(isNumber, strtodec, args, j);
      }
    }
    if j: nat :| j < |args| && Rejects(isNumber(j), strtodec, Trim(args[j])) {
      ParamsReject(isNumber, strtodec, args, j);
    }
  }

  // ---- an argument that is a single quote

  /** Where the j-th argument starts in the text that was split. */
  function Offset(ss: seq<string>, j: nat): nat
    requires j <= |ss|
  {
    if j == 0 then 0 else Offset(ss, j - 1) + |ss[j - 1]| + 1
  }

  /** Where its first character other than a space is. */
  function TextOffset(ss: seq<string>, j: nat): nat
    requires j < |ss|
  {
    Offset(ss, j) + |ss[j]| - |TrimLeft(ss[j])|
  }

  predicate IsLoneQuote(isNumber: nat -> bool, j: nat, arg: string) {
    !isNumber(j) && Trim(arg) == [QUOTE]
  }

  /** For a single quote the filter's length wraps to 255: it unescapes the 255 characters behind the quote
      and terminates them. That spares the later arguments when it meets none of their backslashes and its
      last position, 256 behind the quote, is not in the middle of one of them. */
  predicate Spared(ss: seq<string>, j: nat)
    requires j < |ss|
  {
    var q := TextOffset(ss, j);
    forall i | j < i < |ss| ::
      && (forall k | 0 <= k < |ss[i]| && Offset(ss, i) + k < q + 256 :: ss[i][k] != ESC)
      && !(Offset(ss, i) <= q + 256 < Offset(ss, i) + |ss[i]|)
  }

  /** No argument is damaged by a single quote before it. */
  predicate AllSpared(isNumber: nat -> bool, ss: seq<string>) {
    forall j | 0 <= j < |ss| :: IsLoneQuote(isNumber, j, ss[j]) ==> Spared(ss, j)
  }

  /** room characters hold everything that a single quote rewrites. */
  predicate RoomForQuotes(isNumber: nat -> bool, ss: seq<string>, room: nat) {
    forall j | 0 <= j < |ss| :: IsLoneQuote(isNumber, j, ss[j]) ==> TextOffset(ss, j) + 256 < room
  }

  lemma {:induction false} OffsetPrefix(ss: seq<string>, tt: seq<string>, j: nat)
    requires j <= |ss| && j <= |tt| && ss[..j] == tt[..j]
    ensures Offset(ss, j) == Offset(tt, j)
  {
    if j > 0 {
      assert ss[j - 1] == ss[..j][j - 1] == tt[..j][j - 1] == tt[j - 1];
      assert ss[..j - 1] == ss[..j][..j - 1] == tt[..j][..j - 1] == tt[..j - 1];
      OffsetPrefix(ss, tt, j - 1);
    }
  }

  /** A list that does not survive can split into an argument that is a single quote. */
  lemma LoneQuoteArises()
    ensures Split(Joined(["\\", ","]), 2)[1] == [QUOTE]
  {
    var a, b := "\\", ",";
    assert a[1..] == [] && b[1..] == [] && Escape([]) == [];
    assert Escape(a) == [ESC, ESC] && Escape(b) == [COMMA];
    assert [a, b][1..] == [b];
    var p := [QUOTE, ESC, ESC, QUOTE, COMMA, QUOTE, COMMA, QUOTE];
    assert Joined([a, b]) == Quoted(a) + [COMMA] + Quoted(b) == p;
    FirstIsAt(p, 0, 6);
    assert p[7..] == [QUOTE];
    assert FirstSeparator([QUOTE], 0) == None;
  }

  /** A text whose first argument is a single quote that does not spare the second. */
  const DAMAGING: string := " \",a\\b"

  lemma DamagingText()
    ensures Split(DAMAGING, 2) == [" \"", "a\\b"]
    ensures TextParams(Split(DAMAGING, 2)) == [Text(""), Text("a\\b")]
    ensures !Spared(Split(DAMAGING, 2), 0)
  {
    var p := DAMAGING;
    assert p == [SPACE, QUOTE, COMMA, 'a', ESC, 'b'];
    var ss := [" \"", "a\\b"];
    assert Split(p, 2) == ss by {
      FirstIsAt(p, 0, 2);
      assert p[..2] == ss[0] && p[3..] == ss[1];
      assert FirstSeparator(ss[1], 0) == None;
    }
    assert ss[0][1..] == [QUOTE];
    assert TrimLeft(ss[0]) == TrimLeft([QUOTE]) == [QUOTE] && Trim(ss[0]) == [QUOTE];
    assert Trim(ss[1]) == ss[1];
    assert [QUOTE][1..] == [];
    assert ss[1][1] == ESC && Offset(ss, 1) == 3;
    assert !Spared(ss, 0);
  }

  /** A text whose first argument does not spare the second either; but the second is quoted, and loses early
      what it would have lost anyway. */
  const HARMLESS: string := " \",\"\\a\""

  lemma HarmlessText()
    ensures Split(HARMLESS, 2) == [" \"", "\"\\a\""]
    ensures TextParam("\"\\a\"") == Text("a")
    ensures !Spared(Split(HARMLESS, 2), 0)
  {
    var p := HARMLESS;
    assert p == [SPACE, QUOTE, COMMA, QUOTE, ESC, 'a', QUOTE];
    var ss := [" \"", "\"\\a\""];
    assert Split(p, 2) == ss by {
      FirstIsAt(p, 0, 2);
      assert p[..2] == ss[0] && p[3..] == ss[1];
      assert FirstSeparator(ss[1], 0) == None;
    }
    assert ss[0][1..] == [QUOTE] && TrimLeft(ss[0]) == TrimLeft([QUOTE]) == [QUOTE];
    QuotedIsTrim(ss[1]);
    assert ss[1][1..3] == [ESC, 'a'] + [] && Unescape([ESC, 'a'] + []) == "a" by { UnescapePair('a', []); }
    assert ss[1][1] == ESC && Offset(ss, 1) == 3;
    assert !Spared(ss, 0);
  }

  /** An empty list arrives as one NULL parameter. */
  lemma EmptyList(limit: nat)
    requires limit >= 1
    ensures TextParams(Split([], limit)) == [Null]
  {
  }
}
