/** The in-place code of demo/console/wm_demo_console_task.c that cuts and rewrites the receive
    buffer: comma search, argument split, trimming, and the quotation filter. */
module ConsoleParser {
  import opened CTypes
  import opened ConsoleArgs
  import opened ConsoleText

  /** The arguments ss lie one right behind the other, separated by single characters. */
  ghost predicate Layout(args: seq<nat>, ss: seq<string>) {
    |args| == |ss| && forall j | 0 <= j < |ss| :: args[j] == args[0] + Offset(ss, j)
  }

  /** They are NUL-terminated there, up to end. */
  ghost predicate ArgsAt(b: seq<char>, args: seq<nat>, ss: seq<string>, end: nat) {
    && Layout(args, ss)
    && (forall j | 0 <= j < |ss| :: args[j] + |ss[j]| <= end)
    && (forall j | 0 <= j < |ss| :: CStr(b, args[j], ss[j]))
  }

  lemma {:induction false} OffsetsGrow(ss: seq<string>, i: nat, j: nat)
    requires i < j <= |ss|
    ensures Offset(ss, i) + |ss[i]| < Offset(ss, j)
  {
    if i + 1 < j {
      OffsetsGrow(ss, i, j - 1);
    }
  }

  lemma InOrder(args: seq<nat>, ss: seq<string>, i: nat, j: nat)
    requires Layout(args, ss) && i < j < |ss|
    ensures args[i] + |ss[i]| < args[j]
  {
    OffsetsGrow(ss, i, j);
  }

  // ---- splitting

  /** demo_cmd_get_first_comma. */
  method GetFirstComma(buf: array<char>, at: nat, len: int, ghost p: string) returns (r: Option<nat>)
    requires len <= 0 || (CStr(buf[..], at, p) && len == |p| + 1)
    ensures len <= 0 ==> r == None
    ensures len > 0 ==> r == match FirstSeparator(p, 0) case None => None case Some(c) => Some(at + c)
  {
    if len <= 0 {
      return None;
    }
    if buf[at] == QUOTE {
      var prec := NUL;
      var n := 1;
      while n < len
        invariant 1 <= n <= len
        invariant prec == if n == 1 then NUL else buf[at + n - 1]
        invariant forall m | 0 <= m < n && m < |p| :: !IsSeparator(p, m)
      {
        var curc := buf[at + n];
        if curc == COMMA && prec == QUOTE {
          if n < 3 || buf[at + n - 2] != ESC {
            FirstIsAt(p, 0, n);
            return Some(at + n);
          }
        }
        prec := curc;
        n := n + 1;
      }
      return None;
    } else {
      var n := 0;
      while buf[at + n] != NUL
        invariant 0 <= n <= |p| && buf[at + n] == if n < |p| then p[n] else NUL
        invariant forall m | 0 <= m < n :: !IsSeparator(p, m)
        decreases |p| - n
      {
        if buf[at + n] == COMMA {
          FirstIsAt(p, 0, n);
          return Some(at + n);
        }
        n := n + 1;
      }
      return None;
    }
  }

  lemma CutLayout(args: seq<nat>, done: seq<string>, rest: string, c: nat)
    requires Layout(args, done + [rest]) && c < |rest|
    ensures Layout(args, done + [rest[..c]])
    ensures Layout(args + [args[|done|] + c + 1], done + [rest[..c]] + [rest[c + 1..]])
  {
    hide Offset;
    var n := |done|;
    var ss, tt, uu := done + [rest], done + [rest[..c]], done + [rest[..c]] + [rest[c + 1..]];
    forall j | 0 <= j <= n ensures Offset(ss, j) == Offset(tt, j) == Offset(uu, j) {
      assert ss[..j] == tt[..j] == uu[..j] == done[..j];
      OffsetPrefix(ss, tt, j);
      OffsetPrefix(ss, uu, j);
    }
    LastOffset(uu, n);
  }

  lemma LastOffset(ss: seq<string>, n: nat)
    requires n < |ss|
    ensures Offset(ss, n + 1) == Offset(ss, n) + |ss[n]| + 1
  {
  }

  /** Writing NUL over the c-th character of the last argument makes two of it. */
  lemma CutLast(b: seq<char>, args: seq<nat>, done: seq<string>, rest: string, c: nat, end: nat)
    requires ArgsAt(b, args, done + [rest], end) && c < |rest|
    ensures var cur := args[|done|];
            var b' := b[cur + c := NUL];
            && ArgsAt(b', args, done + [rest[..c]], end)
            && ArgsAt(b', args + [cur + c + 1], done + [rest[..c]] + [rest[c + 1..]], end)
  {
    hide Offset;
    var cur := args[|done|];
    var b' := b[cur + c := NUL];
    var ss := done + [rest];
    CutLayout(args, done, rest, c);
    assert CStr(b, args[|done|], ss[|done|]) && args[|done|] + |ss[|done|]| <= end;
    CutOne(b, cur, rest, c);
    hide CStr;
    forall j | 0 <= j < |done| ensures CStr(b', args[j], done[j]) && args[j] + |done[j]| <= end {
      assert CStr(b, args[j], ss[j]) && args[j] + |ss[j]| <= end;
      InOrder(args, ss, j, |done|);
      Untouched(b, b', cur + c, cur + c + 1, args[j], done[j]);
    }
  }

  lemma CutOne(b: seq<char>, cur: nat, rest: string, c: nat)
    requires CStr(b, cur, rest) && c < |rest|
    ensures CStr(b[cur + c := NUL], cur, rest[..c]) && CStr(b[cur + c := NUL], cur + c + 1, rest[c + 1..])
  {
  }

  lemma SplitStep(rest: string, limit: nat)
    requires limit >= 1
    ensures FirstSeparator(rest, 0).None? ==> Split(rest, limit) == [rest]
    ensures FirstSeparator(rest, 0).Some? && limit == 1 ==>
      Split(rest, limit) == [rest[..FirstSeparator(rest, 0).value]]
    ensures FirstSeparator(rest, 0).Some? && limit > 1 ==>
      Split(rest, limit) == [rest[..FirstSeparator(rest, 0).value]]
                            + Split(rest[FirstSeparator(rest, 0).value + 1..], limit - 1)
  {
  }

  /** Lines 294-325: cut the text between the parentheses into arguments. */
  method SplitArgs(buf: array<char>, begin: nat, end: nat, paramCnt: int, ghost p: string) returns (args: seq<nat>)
    requires begin < end < buf.Length && p == buf[begin + 1..end] && NUL !in p
    modifies buf
    ensures ArgsAt(buf[..], args, Split(p, Max(1, paramCnt)), end)
    ensures |args| == if paramCnt < 1 then 1 else if paramCnt <= |SplitAll(p)| then paramCnt else |SplitAll(p)|
    ensures args[0] == begin + 1 && buf[end] == NUL
    ensures SameOutside(old(buf[..]), buf[..], begin + 1, end + 1)
  {
    hide Split, SplitAll, FirstSeparator, ArgsAt, CStr, SameOutside;
    var remainLen := end - begin;
    var cur := begin + 1;
    args := [cur];
    var argCount := 0;
    ghost var start := buf[..];
    SameAsItself(start, begin + 1, end + 1);
    WriteInside(start, start, begin + 1, end + 1, end, NUL);
    buf[end] := NUL;
    assert buf[..] == start[end := NUL];
    ghost var limit := Max(1, paramCnt);
    ghost var done, rest: string := [], p;
    StartArgs(buf[..], cur, p);
    while remainLen > 0
      invariant cur + |rest| == end && remainLen == end - cur + 1
      invariant |args| == |done| + 1 && argCount == |done| < limit
      invariant args[0] == begin + 1 && args[argCount] == cur && begin < cur
      invariant ArgsAt(buf[..], args, done + [rest], end) && buf[end] == NUL
      invariant Split(p, limit) == done + Split(rest, limit - argCount)
      invariant SameOutside(start, buf[..], begin + 1, end + 1)
      decreases remainLen
    {
      LastOf(buf[..], args, done, rest, end);
      SplitStep(rest, limit - argCount);
      ghost var was := buf[..];
      var comma := GetFirstComma(buf, cur, remainLen, rest);
      if comma.None? {
        if argCount >= paramCnt - 1 {
          break;
        }
        buf[end] := NUL;
        assert buf[..] == was;
        remainLen := remainLen - (end - cur);
        assert remainLen == 1; // so the rest of this branch in the source is never reached
        break;
      }
      ghost var c := comma.value - cur;
      CutLast(was, args, done, rest, c, end);
      WriteInside(start, was, begin + 1, end + 1, comma.value, NUL);
      buf[comma.value] := NUL;
      assert buf[..] == was[cur + c := NUL];
      if argCount >= paramCnt - 1 {
        break;
      }
      ghost var tail := Split(rest[c + 1..], limit - argCount - 1);
      assert done + ([rest[..c]] + tail) == done + [rest[..c]] + tail;
      argCount := argCount + 1;
      args := args + [comma.value + 1];
      done, rest := done + [rest[..c]], rest[c + 1..];
      remainLen := remainLen - (comma.value - cur + 1);
      cur := comma.value + 1;
    }
    ArgsCount(buf[..], args, Split(p, limit), end);
    SplitCount(p, limit);
  }

  lemma WriteInside(a: seq<char>, b: seq<char>, lo: nat, hi: nat, k: nat, c: char)
    requires SameOutside(a, b, lo, hi) && lo <= k < hi && k < |b|
    ensures SameOutside(a, b[k := c], lo, hi)
  {
  }

  lemma ArgsCount(b: seq<char>, args: seq<nat>, ss: seq<string>, end: nat)
    requires ArgsAt(b, args, ss, end)
    ensures |args| == |ss|
  {
  }

  lemma StartArgs(b: seq<char>, pos: nat, p: string)
    requires pos + |p| < |b| && b[pos..pos + |p|] == p && NUL !in p && b[pos + |p|] == NUL
    ensures ArgsAt(b, [pos], [] + [p], pos + |p|)
  {
    forall i | 0 <= i < |p| ensures b[pos + i] == p[i] {
      assert b[pos..pos + |p|][i] == p[i];
    }
  }

  lemma LastOf(b: seq<char>, args: seq<nat>, done: seq<string>, rest: string, end: nat)
    requires ArgsAt(b, args, done + [rest], end)
    ensures CStr(b, args[|done|], rest)
  {
    assert (done + [rest])[|done|] == rest;
  }

  // ---- one argument

  method Strlen(buf: array<char>, pos: nat, ghost s: string) returns (n: nat)
    requires CStr(buf[..], pos, s)
    ensures n == |s|
  {
    n := 0;
    while buf[pos + n] != NUL
      invariant n <= |s| && buf[pos + n] == if n < |s| then s[n] else NUL
      decreases |s| - n
    {
      n := n + 1;
    }
  }

  method SkipSpaces(buf: array<char>, pos: nat, ghost s: string) returns (q: nat)
    requires CStr(buf[..], pos, s)
    ensures pos <= q <= pos + |s| && TrimLeft(s) == s[q - pos..]
    ensures CStr(buf[..], q, TrimLeft(s))
  {
    q := pos;
    while buf[q] == SPACE
      invariant pos <= q <= pos + |s| && buf[q] == if q < pos + |s| then s[q - pos] else NUL
      invariant TrimLeft(s) == TrimLeft(s[q - pos..])
      decreases pos + |s| - q
    {
      assert s[q - pos..][1..] == s[q + 1 - pos..];
      q := q + 1;
    }
  }

  method CutSpaces(buf: array<char>, q: nat, ghost t: string) returns (len: nat)
    requires CStr(buf[..], q, t)
    modifies buf
    ensures CStr(buf[..], q, TrimRight(t)) && len == |TrimRight(t)| <= |t|
    ensures buf[..] == Blanked(old(buf[..]), q + len, q + |t|)
  {
    len := Strlen(buf, q, t);
    assert t[..len] == t;
    while len > 0 && buf[q + len - 1] == SPACE
      invariant len <= |t| && buf.Length > q + |t|
      invariant buf[..] == Blanked(old(buf[..]), q + len, q + |t|)
      invariant TrimRight(t) == TrimRight(t[..len])
    {
      assert t[len - 1] == old(buf[..])[q + len - 1] == buf[..][q + len - 1];
      assert t[..len][..len - 1] == t[..len - 1];
      buf[q + len - 1] := NUL;
      len := len - 1;
    }
    assert len > 0 ==> buf[..][q + len - 1] == old(buf[..])[q + len - 1] == t[len - 1];
    assert TrimRight(t) == t[..len];
  }

  /** Lines 328-337: step over leading spaces, then overwrite trailing ones. */
  method TrimArg(buf: array<char>, pos: nat, ghost s: string) returns (q: nat, len: nat)
    requires CStr(buf[..], pos, s)
    modifies buf
    ensures CStr(buf[..], q, Trim(s)) && len == |Trim(s)|
    ensures q == pos + |s| - |TrimLeft(s)| && q + len <= pos + |s|
    ensures buf[..] == Blanked(old(buf[..]), q + len, pos + |s|)
  {
    q := SkipSpaces(buf, pos, s);
    len := CutSpaces(buf, q, TrimLeft(s));
  }

  /** b with the characters from i + 1 to len moved down by one; the last of them stays behind as well. */
  function Shifted(b: seq<char>, i: nat, len: nat): seq<char>
    requires i < len <= |b|
  {
    b[..i] + b[i + 1..len] + b[len - 1..]
  }

  /** memcpy to the address one lower, read as memmove. */
  method ShiftDown(buf: array<char>, at: nat, n: nat)
    requires at + n < buf.Length
    modifies buf
    ensures buf[..] == Shifted(old(buf[..]), at, at + 1 + n)
  {
    forall k | 0 <= k < n { buf[at + k] := buf[at + k + 1]; }
  }

  /** Part way through the unescape loop: i characters done, the text now len long. */
  ghost predicate Unescaping(w: string, b: seq<char>, i: nat, len: nat)
    requires len <= |b|
  {
    if i <= len then Unescape(w) == b[..i] + Unescape(b[i..len])
    else i == len + 1 && Unescape(w) == b[..len]
  }

  lemma Regroup(head: string, c: char, tail: string)
    ensures head + ([c] + tail) == head + [c] + tail
  {
  }

  lemma UnescapeKeep(w: string, b: seq<char>, i: nat, len: nat)
    requires i < len <= |b| && Unescaping(w, b, i, len) && b[i] != ESC
    ensures Unescaping(w, b, i + 1, len)
  {
    hide Unescape;
    assert b[i..len] == [b[i]] + b[i + 1..len];
    UnescapePlain(b[i], b[i + 1..len]);
    Regroup(b[..i], b[i], Unescape(b[i + 1..len]));
    assert b[..i] + [b[i]] == b[..i + 1];
  }

  lemma UnescapeDrop(w: string, b: seq<char>, i: nat, len: nat)
    requires i < len <= |b| && Unescaping(w, b, i, len) && b[i] == ESC
    ensures Unescaping(w, Shifted(b, i, len), i + 1, len - 1)
  {
    hide Unescape;
    var b' := Shifted(b, i, len);
    if i + 1 < len {
      var rest := b[i + 2..len];
      assert b[i..len] == [ESC, b[i + 1]] + rest;
      UnescapePair(b[i + 1], rest);
      Regroup(b[..i], b[i + 1], Unescape(rest));
      assert b[..i] + [b[i + 1]] == b'[..i + 1];
      assert rest == b'[i + 1..len - 1];
    } else {
      assert b[i..len] == [ESC] && b'[..len - 1] == b[..i];
      UnescapeOne();
      assert b[..i] + [] == b[..i];
    }
  }

  lemma UnescapeOne()
    ensures Unescape([ESC]) == []
  {
  }

  lemma UnescapeDone(w: string, b: seq<char>, i: nat, len: nat)
    requires len <= i && len <= |b| && Unescaping(w, b, i, len)
    ensures Unescape(w) == b[..len]
  {
    assert i == len ==> b[i..len] == [] && b[..i] + [] == b[..len];
  }

  /** What the loop has not reached yet is the end of the text, and behind it lie copies of its last character. */
  ghost predicate EndKept(w: string, b: seq<char>, i: nat, len: nat) {
    && |b| == |w| && len <= |b|
    && (i <= len ==> b[i..len] == w[|w| - (len - i)..])
    && forall j | len <= j < |b| :: b[j] == Last(w)
  }

  lemma EndStart(w: string)
    ensures EndKept(w, w, 0, |w|)
  {
  }

  lemma EndKeep(w: string, b: seq<char>, i: nat, len: nat)
    requires EndKept(w, b, i, len) && i < len
    ensures EndKept(w, b, i + 1, len)
  {
    assert b[i + 1..len] == b[i..len][1..];
  }

  lemma EndDrop(w: string, b: seq<char>, i: nat, len: nat)
    requires EndKept(w, b, i, len) && i < len
    ensures EndKept(w, Shifted(b, i, len), i + 1, len - 1)
  {
    var r := Shifted(b, i, len);
    ShiftedAt(b, i, len);
    assert b[len - 1] == b[i..len][len - 1 - i] == Last(w);
    hide Shifted;
    if i + 1 < len {
      assert r[i + 1..len - 1] == b[i..len][2..];
    }
  }

  /** The loop's end result is the specified buffer. */
  lemma UnescapedIs(a: seq<char>, b: seq<char>, base: nat, size: nat, i: nat, len: nat)
    requires |a| == |b| && base + size < |a| && len <= size && SameOutside(a, b, base, base + size)
    requires var w := a[base..base + size];
      Unescape(w) == b[base..base + size][..len] && EndKept(w, b[base..base + size], i, len)
    ensures b[base + len := NUL] == Unescaped(a, base, size)
  {
    hide Unescape;
    var w, c := a[base..base + size], b[base..base + size];
    var r, t := b[base + len := NUL], Unescaped(a, base, size);
    forall x | 0 <= x < |a| ensures r[x] == t[x] {
      if base <= x < base + size {
        assert b[x] == c[x - base];
      }
    }
  }

  lemma SliceOf(buf: array<char>, base: nat, size: nat)
    requires base + size <= buf.Length
    ensures buf[..][base..base + size] == buf[base..base + size]
  {
  }

  /** Delete the character at i of a text of length len that starts at base. */
  method DeleteChar(buf: array<char>, base: nat, size: nat, i: nat, len: nat)
    requires base + size < buf.Length && i < len <= size
    modifies buf
    ensures buf[base..base + size] == Shifted(old(buf[base..base + size]), i, len)
    ensures SameOutside(old(buf[..]), buf[..], base, base + size)
  {
    hide SameOutside, Shifted;
    ghost var was := buf[..];
    SliceOf(buf, base, size);
    ShiftedSlice(was, base, size, i, len);
    ShiftDown(buf, base + i, len - 1 - i);
    SliceOf(buf, base, size);
  }

  lemma SameOutsideTwice(a: seq<char>, b: seq<char>, c: seq<char>, lo: nat, hi: nat)
    requires SameOutside(a, b, lo, hi) && SameOutside(b, c, lo, hi)
    ensures SameOutside(a, c, lo, hi)
  {
  }

  /** Lines 111-119: delete backslashes in place, then terminate. */
  method UnescapeInPlace(buf: array<char>, base: nat, size: nat) returns (len: nat)
    requires base + size < buf.Length
    modifies buf
    ensures len == |Unescape(old(buf[base..base + size]))| <= size
    ensures buf[base..base + len] == Unescape(old(buf[base..base + size])) && buf[base + len] == NUL
    ensures SameOutside(old(buf[..]), buf[..], base, base + size + 1)
    ensures buf[..] == Unescaped(old(buf[..]), base, size)
  {
    hide Unescaping, Unescape, SameOutside, EndKept, Unescaped, Shifted;
    ghost var w := buf[base..base + size];
    ghost var start := buf[..];
    len := size;
    var i := 0;
    UnescapeStart(w);
    EndStart(w);
    SameAsItself(start, base, base + size);
    while i < len
      invariant 0 <= i <= len + 1 && len <= size
      invariant Unescaping(w, buf[base..base + size], i, len) && EndKept(w, buf[base..base + size], i, len)
      invariant SameOutside(start, buf[..], base, base + size)
    {
      ghost var b, was := buf[base..base + size], buf[..];
      if buf[base + i] == ESC {
        UnescapeDrop(w, b, i, len);
        EndDrop(w, b, i, len);
        DeleteChar(buf, base, size, i, len);
        SameOutsideTwice(start, was, buf[..], base, base + size);
        len := len - 1;
      } else {
        UnescapeKeep(w, b, i, len);
        EndKeep(w, b, i, len);
      }
      i := i + 1;
    }
    UnescapeDone(w, buf[base..base + size], i, len);
    assert buf[base..base + size][..len] == buf[base..base + len];
    Terminate(start, buf[..], base, size, len);
    ghost var was := buf[..];
    assert was[base..base + size] == buf[base..base + size] && start[base..base + size] == w;
    UnescapedIs(start, was, base, size, i, len);
    buf[base + len] := NUL;
    assert buf[..] == was[base + len := NUL];
  }

  lemma SameAsItself(a: seq<char>, lo: nat, hi: nat)
    ensures SameOutside(a, a, lo, hi)
  {
  }

  lemma Terminate(a: seq<char>, b: seq<char>, base: nat, size: nat, len: nat)
    requires SameOutside(a, b, base, base + size) && len <= size && base + size < |b|
    ensures SameOutside(a, b[base + len := NUL], base, base + size + 1)
  {
  }

  lemma UnescapeStart(w: string)
    ensures Unescaping(w, w, 0, |w|)
  {
    assert w[..0] + Unescape(w[0..|w|]) == Unescape(w) by { assert w[0..|w|] == w; }
  }

  lemma ShiftedSlice(was: seq<char>, base: nat, size: nat, i: nat, len: nat)
    requires base + size <= |was| && i < len <= size
    ensures |Shifted(was, base + i, base + len)| == |was|
    ensures Shifted(was, base + i, base + len)[base..base + size] == Shifted(was[base..base + size], i, len)
    ensures SameOutside(was, Shifted(was, base + i, base + len), base, base + size)
  {
    var b := was[base..base + size];
    ShiftedAt(was, base + i, base + len);
    ShiftedAt(b, i, len);
    hide Shifted;
    var now, t := Shifted(was, base + i, base + len), Shifted(b, i, len);
    forall k | 0 <= k < size ensures now[base + k] == t[k] {
      assert b[k] == was[base + k];
      if i <= k < len - 1 {
        assert b[k + 1] == was[base + k + 1];
      }
    }
  }

  lemma ShiftedAt(b: seq<char>, i: nat, len: nat)
    requires i < len <= |b|
    ensures |Shifted(b, i, len)| == |b|
    ensures forall k | 0 <= k < |b| :: Shifted(b, i, len)[k] == if i <= k < len - 1 then b[k + 1] else b[k]
  {
  }

  // ---- the quotation filter

  lemma {:induction false} UnescapeClean(w: string)
    requires NUL !in w
    ensures NUL !in Unescape(w) && |Unescape(w)| <= |w|
  {
    if w != [] {
      UnescapeClean(w[1..]);
      if |w| > 1 {
        UnescapeClean(w[2..]);
      }
    }
  }

  /** What the filter does to the 256 characters behind a single quote at q. */
  ghost predicate LoneRewrite(a: seq<char>, b: seq<char>, q: nat) {
    && q + 256 < |a| == |b|
    && var u := Unescape(a[q + 1..q + 256]);
    && |u| <= 255 && b[q] == NUL && b[q + 1..q + 1 + |u|] == u && b[q + 1 + |u|] == NUL
    && SameOutside(a, b, q, q + 257)
  }

  /** Lines 109-119, entered when the closing quote was seen. */
  method StripQuotes(buf: array<char>, pos: nat, len: Byte, ghost s: string)
    requires CStr(buf[..], pos, s) && pos + FilterReach(s) < buf.Length
    requires IsClosed(s) && len == |s| - 1
    modifies buf
    ensures |s| > 1 ==> CStr(buf[..], pos + 1, Unescape(s[1..|s| - 1])) && |Unescape(s[1..|s| - 1])| <= |s| - 2
    ensures |s| > 1 ==> SameOutside(old(buf[..]), buf[..], pos, pos + |s|)
    ensures |s| == 1 ==> LoneRewrite(old(buf[..]), buf[..], pos)
    ensures buf[..] == Filtered(old(buf[..]), pos, s)
  {
    hide Unescape, SameOutside, CStr, LoneRewrite, Unescaped;
    ghost var start := buf[..];
    InBuffer(start, pos, s);
    var inbuf := pos + 1;
    buf[inbuf + len - 1] := NUL;
    var size := ToByte(len as int - 1);
    ghost var mid := buf[..];
    assert mid == start[pos + |s| - 1 := NUL];
    ghost var w := buf[inbuf..inbuf + size];
    assert w == mid[inbuf..inbuf + size];
    var n := UnescapeInPlace(buf, inbuf, size);
    assert buf[inbuf..inbuf + n] == buf[..][inbuf..inbuf + n];
    if |s| > 1 {
      Stripped(start, mid, buf[..], pos, s);
    } else {
      StrippedLone(start, mid, buf[..], pos);
    }
  }

  lemma Stripped(a: seq<char>, mid: seq<char>, b: seq<char>, pos: nat, s: string)
    requires CStr(a, pos, s) && |s| > 1 && mid == a[pos + |s| - 1 := NUL]
    requires var u := Unescape(mid[pos + 1..pos + |s| - 1]);
      && |u| <= |s| - 2 && SameOutside(mid, b, pos + 1, pos + |s|)
      && pos + |s| < |b| && b[pos + 1..pos + 1 + |u|] == u && b[pos + 1 + |u|] == NUL
    ensures CStr(b, pos + 1, Unescape(s[1..|s| - 1])) && |Unescape(s[1..|s| - 1])| <= |s| - 2
    ensures SameOutside(a, b, pos, pos + |s|)
  {
    var w := mid[pos + 1..pos + |s| - 1];
    assert w == s[1..|s| - 1];
    UnescapeClean(w);
    hide Unescape;
    var u := Unescape(w);
    assert forall i | 0 <= i < |u| :: u[i] == b[pos + 1..pos + 1 + |u|][i] == b[pos + 1 + i];
  }

  lemma StrippedLone(a: seq<char>, mid: seq<char>, b: seq<char>, pos: nat)
    requires pos + 256 < |a| && mid == a[pos := NUL] && SameOutside(mid, b, pos + 1, pos + 257)
    requires var u := Unescape(mid[pos + 1..pos + 256]);
      && |u| <= 255 && |b| == |a| && b[pos + 1..pos + 1 + |u|] == u && b[pos + 1 + |u|] == NUL
    ensures LoneRewrite(a, b, pos)
  {
    hide Unescape;
    assert mid[pos + 1..pos + 256] == a[pos + 1..pos + 256];
  }

  /** The key that the filter returns for a single quote is the empty string. */
  lemma LoneKeyIsEmpty(a: seq<char>, b: seq<char>, q: nat)
    requires LoneRewrite(a, b, q) && a[q + 1] == NUL
    ensures CStr(b, q + 1, [])
  {
    var w := a[q + 1..q + 256];
    assert w[0] == NUL && Unescape(w)[0] == NUL;
    assert b[q + 1..q + 1 + |Unescape(w)|][0] == b[q + 1];
  }

  lemma ByteLength(n: nat)
    requires n >= 1
    ensures ToByte(ToByte(n) as int - 1) == (n - 1) % 256
  {
  }

  lemma QuoteLeads(b: seq<char>, pos: nat, s: string)
    requires CStr(b, pos, s)
    ensures b[pos] == QUOTE <==> s != [] && s[0] == QUOTE
    ensures s != [] ==> var len := (|s| - 1) % 256;
      && b[pos + len] == s[len]
      && (b[pos + len] == QUOTE && b[pos + 1 + len] == NUL <==> |s| <= 256 && Last(s) == QUOTE)
  {
    if s != [] {
      var len := (|s| - 1) % 256;
      assert b[pos + len] == s[len];
      if |s| > 256 {
        assert b[pos + 1 + len] == s[1 + len];
      }
    }
  }

  lemma LoseQuote(b: seq<char>, pos: nat, s: string)
    requires CStr(b, pos, s) && s != []
    ensures CStr(b, pos + 1, s[1..])
  {
  }

  /** demo_cmd_quotation_filter; its length is a u8. */
  method QuotationFilter(buf: array<char>, pos: nat, ghost s: string) returns (key: nat, ret: int)
    requires CStr(buf[..], pos, s) && pos + FilterReach(s) < buf.Length
    modifies buf
    ensures CStr(buf[..], key, Unquote(s)) && pos <= key
    ensures s != [] ==> key + |Unquote(s)| <= pos + |s|
    ensures ret == if s != [] && s[0] == QUOTE && !IsQuoted(s) && s != [QUOTE] then 1 else 0
    ensures s != [QUOTE] ==> SameOutside(old(buf[..]), buf[..], pos, pos + |s|)
    ensures s == [QUOTE] ==> LoneRewrite(old(buf[..]), buf[..], pos)
    ensures buf[..] == Filtered(old(buf[..]), pos, s)
    ensures key == if s != [] && s[0] == QUOTE then pos + 1 else pos
  {
    hide Unescape, CStr, SameOutside, LoneRewrite, Unescaped;
    var n := Strlen(buf, pos, s);
    var len := ToByte(n);
    QuoteLeads(buf[..], pos, s);
    SameAsItself(buf[..], pos, pos + |s|);
    ghost var was := buf[..];
    InBuffer(was, pos, s);
    if buf[pos] != QUOTE {
      return pos, 0;
    }
    ByteLength(n);
    LoseQuote(was, pos, s);
    len := ToByte(len as int - 1);
    key := pos + 1;
    if buf[key + len - 1] == QUOTE && buf[key + len] == NUL {
      StripQuotes(buf, pos, len, s);
      if |s| == 1 {
        LoneNul(was, pos, s);
        LoneKeyIsEmpty(was, buf[..], pos);
      }
      return key, 0;
    }
    return key, 1;
  }

  lemma InBuffer(b: seq<char>, pos: nat, s: string)
    requires CStr(b, pos, s)
    ensures pos + |s| < |b|
  {
  }

  lemma LoneNul(b: seq<char>, pos: nat, s: string)
    requires CStr(b, pos, s)
    ensures b[pos + |s|] == NUL
  {
  }

  // ---- what a single quote does to the arguments behind it

  lemma {:induction false} UnescapePrefix(w: string, n: nat)
    requires n <= |w| && ESC !in w[..n]
    ensures Unescape(w) == w[..n] + Unescape(w[n..])
  {
    if n == 0 {
      assert w[..0] + Unescape(w[0..]) == Unescape(w) by { assert w[0..] == w; }
    } else {
      assert w[0] == w[..n][0];
      assert w[1..][..n - 1] == w[..n][1..] && w[1..][n - 1..] == w[n..];
      UnescapePrefix(w[1..], n - 1);
      assert w[..n] + Unescape(w[n..]) == [w[0]] + (w[1..][..n - 1] + Unescape(w[n..]));
    }
  }

  /** Unescaping brings a terminator forward, strictly if there is a backslash before it. */
  lemma {:induction false} NulComesForward(v: string, k: nat) returns (i: nat)
    requires k <= |v| && (k < |v| ==> v[k] == NUL)
    ensures i <= k && i < |Unescape(v) + [NUL]| && (Unescape(v) + [NUL])[i] == NUL
    ensures ESC in v[..k] ==> i < k
  {
    if k == 0 {
      i := 0;
    } else if v[0] != ESC {
      assert v[1..][..k - 1] == v[..k][1..] && (ESC in v[..k] ==> ESC in v[..k][1..]);
      i := NulComesForward(v[1..], k - 1);
      assert Unescape(v) + [NUL] == [v[0]] + (Unescape(v[1..]) + [NUL]);
      i := i + 1;
    } else if k == 1 {
      i := 0;
    } else {
      i := NulComesForward(v[2..], k - 2);
      assert Unescape(v) + [NUL] == [v[1]] + (Unescape(v[2..]) + [NUL]);
      i := i + 1;
    }
  }

  lemma {:induction false} FirstOf(v: string, c: char) returns (k: nat)
    ensures k <= |v| && (k < |v| ==> v[k] == c) && forall i | 0 <= i < k :: v[i] != c
  {
    if v == [] || v[0] == c {
      k := 0;
    } else {
      k := FirstOf(v[1..], c);
      assert forall i | 1 <= i <= k :: v[i] == v[1..][i - 1];
      k := k + 1;
    }
  }

  /** The rewritten characters, terminator included. */
  lemma LoneBytes(a: seq<char>, b: seq<char>, q: nat, i: nat)
    requires LoneRewrite(a, b, q)
    requires i < |Unescape(a[q + 1..q + 256]) + [NUL]|
    ensures q + 1 + i < |b| && b[q + 1 + i] == (Unescape(a[q + 1..q + 256]) + [NUL])[i]
  {
    hide Unescape;
    var u := Unescape(a[q + 1..q + 256]);
    if i < |u| {
      assert b[q + 1..q + 1 + |u|][i] == u[i];
    }
  }

  lemma LoneSize(a: seq<char>, b: seq<char>, q: nat)
    requires LoneRewrite(a, b, q)
    ensures q + 256 < |a| == |b|
  {
  }

  /** Nothing up to e changes if no backslash is met and the terminator falls on a NUL, ... */
  lemma RewriteKeeps(a: seq<char>, b: seq<char>, q: nat, e: nat, x: nat)
    requires LoneRewrite(a, b, q) && q < x <= e < |a|
    requires forall y | q < y <= e && y < q + 256 :: a[y] != ESC
    requires q + 256 <= e ==> a[q + 256] == NUL
    ensures b[x] == a[x]
  {
    var w, n := a[q + 1..q + 256], Min(e - q, 255);
    assert forall k | 0 <= k < n :: w[k] == a[q + 1 + k];
    UnescapePrefix(w, n);
    if x <= q + n {
      var i := x - q - 1;
      assert (Unescape(w) + [NUL])[i] == w[..n][i];
      LoneBytes(a, b, q, i);
    } else if x == q + 256 {
      assert w[n..] == [] && Unescape(w) == w;
      LoneBytes(a, b, q, 255);
    }
  }

  /** ... and otherwise, from the first such place on, some character is overwritten by NUL. */
  lemma RewriteBreaks(a: seq<char>, b: seq<char>, q: nat, e: nat, first: nat) returns (x: nat)
    requires LoneRewrite(a, b, q) && q < first <= e < |a| && a[e] == NUL && first <= q + 256
    requires if first < q + 256 then a[first] == ESC else a[first] != NUL
    requires forall y | q < y < first :: a[y] != ESC
    ensures first <= x <= e && a[x] != NUL && b[x] == NUL
  {
    hide LoneRewrite, Unescape;
    LoneSize(a, b, q);
    var w, n := a[q + 1..q + 256], first - q - 1;
    assert forall k | 0 <= k < n :: w[k] == a[q + 1 + k];
    UnescapePrefix(w, n);
    var v := w[n..];
    var i := 0;
    if first < q + 256 {
      assert v[0] == ESC;
      var k := FirstOf(v, NUL);
      assert e < q + 256 ==> v[e - first] == NUL;
      assert v[..k][0] == ESC;
      i := NulComesForward(v, k);
      assert a[first + i] == v[i];
    } else {
      assert v == [] && Unescape([]) == [] by { UnescapeEmpty(); }
    }
    x := first + i;
    assert Unescape(w) + [NUL] == w[..n] + (Unescape(v) + [NUL]);
    assert (Unescape(w) + [NUL])[n + i] == NUL;
    LoneBytes(a, b, q, n + i);
  }

  lemma UnescapeEmpty()
    ensures Unescape([]) == []
  {
  }

  /** Every position behind the j-th argument and up to the end of the last belongs to a later one. */
  lemma {:induction false} Owner(args: seq<nat>, ss: seq<string>, j: nat, x: nat) returns (i: nat)
    requires Layout(args, ss) && j < |ss|
    requires args[j] + |ss[j]| < x <= args[|ss| - 1] + |ss[|ss| - 1]|
    ensures j < i < |ss| && args[i] <= x <= args[i] + |ss[i]|
    decreases |ss| - j
  {
    i := j + 1;
    LastOffset(ss, j);
    if args[i] + |ss[i]| < x {
      i := Owner(args, ss, j + 1, x);
    }
  }

  // ---- the whole argument list

  ghost predicate Denotes(b: seq<char>, slot: Slot, p: Param) {
    match p
    case Null => slot.NullPtr?
    case Text(t) => slot.At? && CStr(b, slot.pos, t)
    case Number(n) => slot == Int(n)
  }

  /** The slot's text, if any, lies inside the j-th argument's own part of the buffer. */
  ghost predicate Inside(slot: Slot, p: Param, lo: nat, hi: nat) {
    slot.At? && p.Text? ==> lo <= slot.pos && slot.pos + |p.text| <= hi
  }

  lemma BlankedFrame(a: seq<char>, lo: nat, hi: nat, from: nat)
    requires from <= lo
    ensures SameOutside(a, Blanked(a, lo, hi), from, hi)
  {
  }

  lemma SameOutsideWider(a: seq<char>, b: seq<char>, c: seq<char>, lo: nat, hi: nat, lo': nat, hi': nat)
    requires SameOutside(a, b, lo, hi) && SameOutside(b, c, lo', hi') && lo <= lo' && hi' <= hi
    ensures SameOutside(a, c, lo, hi)
  {
  }

  /** Lines 328-360 for one argument. The conversion is confined to it, except that a single quote rewrites
      the characters behind it after its trailing spaces were overwritten. */
  method OneParam(buf: array<char>, pos: nat, j: nat, isNumber: nat -> bool, strtodec: string -> Option<int>,
                  ghost s: string)
    returns (r: Option<Slot>)
    requires CStr(buf[..], pos, s) && (IsLoneQuote(isNumber, j, s) ==> TextAt(pos, s) + 256 < buf.Length)
    modifies buf
    ensures var p := ParamOf(isNumber, strtodec, j, s);
            && (r.Some? <==> p.Some?)
            && (r.Some? ==> Denotes(buf[..], r.value, p.value) && Inside(r.value, p.value, pos, pos + |s|))
    ensures !IsLoneQuote(isNumber, j, s) ==> SameOutside(old(buf[..]), buf[..], pos, pos + |s|)
    ensures IsLoneQuote(isNumber, j, s) ==>
      LoneRewrite(Blanked(old(buf[..]), TextAt(pos, s) + 1, pos + |s|), buf[..], TextAt(pos, s))
    ensures r == SlotOf(pos, s, isNumber, strtodec, j) && buf[..] == Effect(old(buf[..]), pos, s, !isNumber(j))
    ensures Trim(s) == [] ==> r == Some(if isNumber(j) then Int(-1) else NullPtr)
    ensures Trim(s) != [] && isNumber(j) ==> r == match strtodec(Trim(s)) case None => None case Some(n) => Some(Int(n))
    ensures Trim(s) != [] && !isNumber(j) ==> r.Some? && r.value.At? && CStr(buf[..], r.value.pos, Unquote(Trim(s)))
  {
    hide Trim, TrimLeft, Unquote, IsQuoted, SameOutside, LoneRewrite, Blanked, CStr, Filtered;
    ghost var start := buf[..];
    InBuffer(start, pos, s);
    var q, len := TrimArg(buf, pos, s);
    ghost var t := Trim(s);
    ghost var mid := buf[..];
    BlankedFrame(start, q + len, pos + |s|, pos);
    InBuffer(mid, q, t);
    if !isNumber(j) {
      if len == 0 {
        return Some(NullPtr);
      }
      var key, _ := QuotationFilter(buf, q, t);
      if t != [QUOTE] {
        SameOutsideWider(start, mid, buf[..], pos, pos + |s|, q, q + len);
      }
      return Some(At(key));
    }
    if len == 0 {
      return Some(Int(-1));
    }
    TextRead(mid, q, t);
    assert buf[q..q + len] == mid[q..q + len];
    var d := strtodec(buf[q..q + len]);
    return match d case None => None case Some(n) => Some(Int(n));
  }

  lemma TextRead(b: seq<char>, q: nat, t: string)
    requires CStr(b, q, t)
    ensures b[q..q + |t|] == t
  {
  }

  /** The first |slots| arguments are converted, the others still lie untouched at args. */
  ghost predicate Parsed(b: seq<char>, slots: seq<Slot>, ps: seq<Param>, args: seq<nat>, ss: seq<string>) {
    && Layout(args, ss)
    && |slots| == |ps| <= |ss|
    && (forall i | 0 <= i < |ps| :: Denotes(b, slots[i], ps[i]) && Inside(slots[i], ps[i], args[i], args[i] + |ss[i]|))
    && Intact(b, args, ss, |ps|)
  }

  ghost predicate Intact(b: seq<char>, args: seq<nat>, ss: seq<string>, from: nat)
    requires |args| == |ss|
  {
    forall i | from <= i < |ss| :: CStr(b, args[i], ss[i])
  }

  lemma DenotesUntouched(a: seq<char>, b: seq<char>, lo: nat, hi: nat, slot: Slot, p: Param)
    requires Denotes(a, slot, p) && SameOutside(a, b, lo, hi)
    requires slot.At? && p.Text? ==> slot.pos + |p.text| < lo || hi <= slot.pos
    ensures Denotes(b, slot, p)
  {
    if p.Text? {
      Untouched(a, b, lo, hi, slot.pos, p.text);
    }
  }

  lemma LaterIntact(a: seq<char>, b: seq<char>, args: seq<nat>, ss: seq<string>, j: nat)
    requires Layout(args, ss) && j < |ss| && Intact(a, args, ss, j)
    requires SameOutside(a, b, args[j], args[j] + |ss[j]|)
    ensures Intact(b, args, ss, j + 1)
  {
    hide CStr, SameOutside, Offset;
    forall i | j < i < |ss| ensures CStr(b, args[i], ss[i]) {
      InOrder(args, ss, j, i);
      Untouched(a, b, args[j], args[j] + |ss[j]|, args[i], ss[i]);
    }
  }

  lemma QuoteInside(s: string)
    requires Trim(s) == [QUOTE]
    ensures 1 <= |TrimLeft(s)| <= |s|
  {
    TrimIsInside(s);
  }

  /** Trailing spaces overwritten, the positions from the quote to the end of its argument hold NUL, and
      those behind it are as they were. */
  lemma BlankedAt(a: seq<char>, pos: nat, s: string, x: nat)
    requires CStr(a, pos, s) && Trim(s) == [QUOTE] && TextAt(pos, s) < x < |a|
    ensures x <= pos + |s| ==> Blanked(a, TextAt(pos, s) + 1, pos + |s|)[x] == NUL
    ensures x >= pos + |s| ==> Blanked(a, TextAt(pos, s) + 1, pos + |s|)[x] == a[x]
  {
  }

  /** A position of a later argument or of its terminator, read from the text. */
  lemma ArgChar(a: seq<char>, args: seq<nat>, ss: seq<string>, from: nat, i: nat, x: nat)
    requires |args| == |ss| && Intact(a, args, ss, from) && from <= i < |ss| && args[i] <= x <= args[i] + |ss[i]|
    ensures x < |a| && a[x] == if x < args[i] + |ss[i]| then ss[i][x - args[i]] else NUL
    ensures a[x] == NUL <==> x == args[i] + |ss[i]|
  {
    assert CStr(a, args[i], ss[i]);
    if x < args[i] + |ss[i]| {
      assert a[args[i] + (x - args[i])] == ss[i][x - args[i]];
    }
  }

  ghost predicate LoneStep(a: seq<char>, b: seq<char>, args: seq<nat>, ss: seq<string>, j: nat) {
    && Layout(args, ss) && j < |ss| && Intact(a, args, ss, j) && Trim(ss[j]) == [QUOTE]
    && LoneRewrite(Blanked(a, TextAt(args[j], ss[j]) + 1, args[j] + |ss[j]|), b, TextAt(args[j], ss[j]))
  }

  lemma Reached(a: seq<char>, b: seq<char>, args: seq<nat>, ss: seq<string>, j: nat, x: nat)
    requires LoneStep(a, b, args, ss, j) && Spared(ss, j)
    requires TextAt(args[j], ss[j]) < x <= args[|ss| - 1] + |ss[|ss| - 1]| && x <= TextAt(args[j], ss[j]) + 256
    ensures x < |a|
    ensures var c := Blanked(a, TextAt(args[j], ss[j]) + 1, args[j] + |ss[j]|)[x];
      if x < TextAt(args[j], ss[j]) + 256 then c != ESC else c == NUL
  {
    hide LoneRewrite, CStr, Blanked, Trim, TrimLeft, Intact, Offset;
    var q := TextAt(args[j], ss[j]);
    QuoteInside(ss[j]);
    ArgChar(a, args, ss, j, |ss| - 1, args[|ss| - 1] + |ss[|ss| - 1]|);
    FirstCStr(a, args, ss, j);
    BlankedAt(a, args[j], ss[j], x);
    if args[j] + |ss[j]| < x {
      var i := Owner(args, ss, j, x);
      ArgChar(a, args, ss, j, i, x);
      assert args[i] == args[0] + Offset(ss, i) && args[j] == args[0] + Offset(ss, j);
      if x < args[i] + |ss[i]| && x < q + 256 {
        assert ss[i][x - args[i]] != ESC;
      }
    }
  }

  lemma FirstCStr(a: seq<char>, args: seq<nat>, ss: seq<string>, j: nat)
    requires |args| == |ss| && Intact(a, args, ss, j) && j < |ss|
    ensures CStr(a, args[j], ss[j])
  {
  }

  lemma SparedSuffices(a: seq<char>, b: seq<char>, args: seq<nat>, ss: seq<string>, j: nat)
    requires LoneStep(a, b, args, ss, j) && Spared(ss, j)
    ensures Intact(b, args, ss, j + 1)
  {
    hide LoneRewrite, Blanked, Trim, TrimLeft, Offset, Spared;
    var last := |ss| - 1;
    var q, e := TextAt(args[j], ss[j]), args[last] + |ss[last]|;
    var mid := Blanked(a, q + 1, args[j] + |ss[j]|);
    QuoteInside(ss[j]);
    ArgChar(a, args, ss, j, last, e);
    forall y | q < y <= e && y <= q + 256 ensures if y < q + 256 then mid[y] != ESC else mid[y] == NUL {
      Reached(a, b, args, ss, j, y);
    }
    LoneSize(mid, b, q);
    forall i | j < i < |ss| ensures CStr(b, args[i], ss[i]) {
      InOrder(args, ss, j, i);
      if i < last {
        InOrder(args, ss, i, last);
      }
      assert CStr(a, args[i], ss[i]);
      forall x | args[i] <= x <= args[i] + |ss[i]| ensures b[x] == a[x] {
        RewriteKeeps(mid, b, q, e, x);
        BlankedAt(a, args[j], ss[j], x);
      }
    }
  }

  /** An offending position in a later argument: a backslash in reach, or a character where the terminator falls. */
  ghost predicate Offends(a: seq<char>, q: nat, x: nat)
    requires x < |a|
  {
    x <= q + 256 && if x < q + 256 then a[x] == ESC else a[x] != NUL
  }

  lemma Offender(a: seq<char>, args: seq<nat>, ss: seq<string>, j: nat) returns (i: nat, x: nat)
    requires Layout(args, ss) && j < |ss| && Intact(a, args, ss, j) && !Spared(ss, j)
    ensures j < i < |ss| && args[i] <= x < args[i] + |ss[i]| && x < |a|
    ensures Offends(a, TextAt(args[j], ss[j]), x)
  {
    hide Intact, Offset, TrimLeft;
    var q := TextOffset(ss, j);
    assert q + args[0] == TextAt(args[j], ss[j]) by { assert args[j] == args[0] + Offset(ss, j); }
    i :| j < i < |ss| && !((forall k | 0 <= k < |ss[i]| && Offset(ss, i) + k < q + 256 :: ss[i][k] != ESC)
                           && !(Offset(ss, i) <= q + 256 < Offset(ss, i) + |ss[i]|));
    assert args[i] == args[0] + Offset(ss, i);
    if Offset(ss, i) <= q + 256 < Offset(ss, i) + |ss[i]| {
      x := args[0] + q + 256;
    } else {
      var k :| 0 <= k < |ss[i]| && Offset(ss, i) + k < q + 256 && ss[i][k] == ESC;
      x := args[i] + k;
    }
    ArgChar(a, args, ss, j, i, x);
  }

  /** The first position that offends. */
  lemma {:induction false} FirstOffence(a: seq<char>, q: nat, lo: nat, x: nat) returns (first: nat)
    requires lo <= x < |a| && Offends(a, q, x)
    ensures lo <= first <= x && Offends(a, q, first) && forall y | lo <= y < first && y < q + 256 :: a[y] != ESC
    decreases x - lo
  {
    if Offends(a, q, lo) {
      first := lo;
    } else {
      first := FirstOffence(a, q, lo + 1, x);
    }
  }

  lemma SparedIsNeeded(a: seq<char>, b: seq<char>, args: seq<nat>, ss: seq<string>, j: nat)
    requires LoneStep(a, b, args, ss, j) && !Spared(ss, j)
    ensures !Intact(b, args, ss, j + 1)
  {
    hide LoneRewrite, Blanked, Trim, TrimLeft, Offset, Spared, CStr;
    var last, hi := |ss| - 1, args[j] + |ss[j]|;
    var q, e := TextAt(args[j], ss[j]), args[last] + |ss[last]|;
    var mid := Blanked(a, q + 1, hi);
    QuoteInside(ss[j]);
    FirstCStr(a, args, ss, j);
    ArgChar(a, args, ss, j, last, e);
    LoneSize(mid, b, q);
    var i, x := Offender(a, args, ss, j);
    InOrder(args, ss, j, i);
    if i < last {
      InOrder(args, ss, i, last);
    }
    BlankedAt(a, args[j], ss[j], x);
    BlankedAt(a, args[j], ss[j], e);
    var first := FirstOffence(mid, q, q + 1, x);
    BlankedAt(a, args[j], ss[j], first);
    var y := RewriteBreaks(mid, b, q, e, first);
    BlankedAt(a, args[j], ss[j], y);
    var o := Owner(args, ss, j, y);
    ArgChar(a, args, ss, j, o, y);
    if Intact(b, args, ss, j + 1) {
      ArgChar(b, args, ss, j + 1, o, y);
    }
  }

  /** Converting a single quote leaves every later argument intact if and only if it spares them. */
  lemma LoneQuoteSpares(a: seq<char>, b: seq<char>, args: seq<nat>, ss: seq<string>, j: nat)
    requires LoneStep(a, b, args, ss, j)
    ensures Intact(b, args, ss, j + 1) <==> Spared(ss, j)
  {
    hide LoneRewrite, Blanked, Intact, Trim, Layout, Spared;
    if Spared(ss, j) {
      SparedSuffices(a, b, args, ss, j);
    } else {
      SparedIsNeeded(a, b, args, ss, j);
    }
  }

  lemma ParsedOneMore(a: seq<char>, b: seq<char>, slots: seq<Slot>, ps: seq<Param>, args: seq<nat>, ss: seq<string>,
                      slot: Slot, p: Param)
    requires Parsed(a, slots, ps, args, ss) && |ps| < |ss|
    requires SameOutside(a, b, args[|ps|], |a|) && Intact(b, args, ss, |ps| + 1)
    requires Denotes(b, slot, p) && Inside(slot, p, args[|ps|], args[|ps|] + |ss[|ps|]|)
    ensures Parsed(b, slots + [slot], ps + [p], args, ss)
  {
    hide CStr, SameOutside, Offset, Intact;
    var j := |ps|;
    var slots', ps' := slots + [slot], ps + [p];
    forall i | 0 <= i < j ensures Denotes(b, slots'[i], ps'[i]) {
      InOrder(args, ss, i, j);
      DenotesUntouched(a, b, args[j], |a|, slots[i], ps[i]);
    }
  }

  /** One turn of the loop keeps everything before the argument and the arguments behind it. */
  lemma OneParamFrame(a: seq<char>, b: seq<char>, isNumber: nat -> bool, args: seq<nat>, ss: seq<string>, j: nat)
    requires Layout(args, ss) && j < |ss| && Intact(a, args, ss, j) && AllSpared(isNumber, ss)
    requires !IsLoneQuote(isNumber, j, ss[j]) ==> SameOutside(a, b, args[j], args[j] + |ss[j]|)
    requires var q := TextAt(args[j], ss[j]);
      IsLoneQuote(isNumber, j, ss[j]) ==> LoneRewrite(Blanked(a, q + 1, args[j] + |ss[j]|), b, q)
    ensures SameOutside(a, b, args[j], |a|) && Intact(b, args, ss, j + 1)
  {
    hide Intact, Trim, TrimLeft, Blanked, Offset;
    FirstCStr(a, args, ss, j);
    InBuffer(a, args[j], ss[j]);
    var q, hi := TextAt(args[j], ss[j]), args[j] + |ss[j]|;
    if IsLoneQuote(isNumber, j, ss[j]) {
      LoneQuoteSpares(a, b, args, ss, j);
      BlankedFrame(a, q + 1, hi, args[j]);
      LoneFrame(a, Blanked(a, q + 1, hi), b, args[j], hi, q);
    } else {
      LaterIntact(a, b, args, ss, j);
    }
  }

  lemma LoneFrame(a: seq<char>, mid: seq<char>, b: seq<char>, lo: nat, hi: nat, q: nat)
    requires SameOutside(a, mid, lo, hi) && LoneRewrite(mid, b, q) && lo <= q && hi <= |a|
    ensures SameOutside(a, b, lo, |a|)
  {
  }

  /** No single quote damages an argument behind it, and each has room. */
  ghost predicate Undamaged(isNumber: nat -> bool, ss: seq<string>, room: int) {
    room >= 0 && RoomForQuotes(isNumber, ss, room) && AllSpared(isNumber, ss)
  }

  /** What the j-th turn of the loop finds: the argument itself as long as nothing was damaged, and some string
      in any case. */
  lemma TurnFinds(b: seq<char>, args: seq<nat>, ss: seq<string>, end: nat, j: nat, isNumber: nat -> bool)
    requires Layout(args, ss) && j < |ss| && args[j] <= end < |b|
    requires ZeroTail(b) || (Intact(b, args, ss, j) && Undamaged(isNumber, ss, |b| - args[0]))
    ensures CStr(b, args[j], StrAt(b, args[j]))
    ensures Intact(b, args, ss, j) ==> StrAt(b, args[j]) == ss[j]
    ensures IsLoneQuote(isNumber, j, StrAt(b, args[j])) ==> TextAt(args[j], StrAt(b, args[j])) + 256 < |b|
  {
    hide Trim, TrimLeft, Offset, AllSpared, CStr, ZeroTail, StrAt, Intact;
    if Intact(b, args, ss, j) {
      FirstCStr(b, args, ss, j);
      StrAtIs(b, args[j], ss[j]);
      assert args[j] == args[0] + Offset(ss, j);
    }
    if ZeroTail(b) {
      TailFinds(b, args[j]);
    }
  }

  lemma TailFinds(b: seq<char>, pos: nat)
    requires ZeroTail(b) && pos < |b|
    ensures CStr(b, pos, StrAt(b, pos))
    ensures Trim(StrAt(b, pos)) == [QUOTE] ==> TextAt(pos, StrAt(b, pos)) + 256 < |b|
  {
    hide Trim, TrimLeft, StrAt;
    StrAtEnds(b, pos, |b| - 1);
    var s := StrAt(b, pos);
    if Trim(s) == [QUOTE] {
      QuoteInside(s);
      var q := TextAt(pos, s);
      assert b[pos + (q - pos)] == s[q - pos];
      TailIsRoom(b, q);
    }
  }

  /** Lines 326-361: convert every argument, giving up at the first number strtodec rejects. Each turn takes what
      it finds; if no single quote damages an argument behind it, that is the argument. Where it would, the
      buffer is to end in zeros, so that the strings found have an end. */
  method ParseArgs(buf: array<char>, args: seq<nat>, isNumber: nat -> bool, strtodec: string -> Option<int>,
                   ghost ss: seq<string>, ghost end: nat)
    returns (r: Option<seq<Slot>>)
    requires ArgsAt(buf[..], args, ss, end) && ss != [] && end < buf.Length
    requires ZeroTail(buf[..]) || Undamaged(isNumber, ss, buf.Length - args[0])
    modifies buf
    ensures match Convert(old(buf[..]), args, |args|, isNumber, strtodec)
            case None => r.None?
            case Some(c) => r == Some(c.slots) && buf[..] == c.buffer
    ensures Undamaged(isNumber, ss, buf.Length - args[0]) ==>
            var ps := Params(isNumber, strtodec, ss);
            && (r.Some? <==> ps.Some?)
            && (r.Some? ==> Parsed(buf[..], r.value, ps.value, args, ss))
  {
    hide Trim, TrimLeft, Denotes, Inside, CStr, SameOutside, ParamOf, LoneRewrite, Blanked, Offset, IsLoneQuote;
    hide RoomForQuotes, AllSpared, ZeroTail, Effect, SlotOf, StrAt, Convert, Params;
    ConvertNone(buf[..], args, isNumber, strtodec);
    ParamsStep(isNumber, strtodec, ss, 0);
    var slots: seq<Slot> := [];
    ghost var ps: seq<Param> := [];
    ghost var fine := Undamaged(isNumber, ss, buf.Length - args[0]);
    for j := 0 to |args|
      invariant |slots| == j && Convert(old(buf[..]), args, j, isNumber, strtodec) == Some(Conversion(buf[..], slots))
      invariant fine || ZeroTail(buf[..])
      invariant fine ==> Params(isNumber, strtodec, ss[..j]) == Some(ps) && Parsed(buf[..], slots, ps, args, ss)
    {
      ghost var was := buf[..];
      ghost var s := StrAt(was, args[j]);
      TurnFinds(was, args, ss, end, j, isNumber);
      var slot := OneParam(buf, args[j], j, isNumber, strtodec, s);
      ConvertStep(old(buf[..]), args, j, isNumber, strtodec);
      ParamsStep(isNumber, strtodec, ss, j);
      if slot.None? {
        RejectedStays(old(buf[..]), args, j + 1, |args|, isNumber, strtodec);
        if fine {
          RejectedEarly(isNumber, strtodec, ss, j + 1);
        }
        return None;
      }
      if fine {
        ghost var p := ParamOf(isNumber, strtodec, j, ss[j]).value;
        FineTurn(was, buf[..], isNumber, args, ss, slots, ps, slot.value, p);
        ps := ps + [p];
      } else {
        EffectTail(was, args[j], s, !isNumber(j));
      }
      slots := slots + [slot.value];
    }
    assert ss[..|ss|] == ss;
    return Some(slots);
  }

  lemma ParamsStep(isNumber: nat -> bool, strtodec: string -> Option<int>, ss: seq<string>, j: nat)
    requires j <= |ss|
    ensures j == 0 ==> Params(isNumber, strtodec, ss[..j]) == Some([])
    ensures j < |ss| && Params(isNumber, strtodec, ss[..j]).Some? ==>
      var p := ParamOf(isNumber, strtodec, j, ss[j]);
      Params(isNumber, strtodec, ss[..j + 1])
      == if p.None? then None else Some(Params(isNumber, strtodec, ss[..j]).value + [p.value])
  {
    hide ParamOf;
    if j < |ss| {
      assert ss[..j + 1][..j] == ss[..j];
    }
  }

  lemma FineTurn(a: seq<char>, b: seq<char>, isNumber: nat -> bool, args: seq<nat>, ss: seq<string>,
                 slots: seq<Slot>, ps: seq<Param>, slot: Slot, p: Param)
    requires Parsed(a, slots, ps, args, ss) && |ps| < |ss| && AllSpared(isNumber, ss)
    requires var j := |ps|; !IsLoneQuote(isNumber, j, ss[j]) ==> SameOutside(a, b, args[j], args[j] + |ss[j]|)
    requires var j := |ps|;
      var q := TextAt(args[j], ss[j]);
      IsLoneQuote(isNumber, j, ss[j]) ==> LoneRewrite(Blanked(a, q + 1, args[j] + |ss[j]|), b, q)
    requires Denotes(b, slot, p) && Inside(slot, p, args[|ps|], args[|ps|] + |ss[|ps|]|)
    ensures Parsed(b, slots + [slot], ps + [p], args, ss)
  {
    hide CStr, SameOutside, Offset, Intact, AllSpared, LoneRewrite, Blanked, Denotes, Inside, TextAt, IsLoneQuote;
    OneParamFrame(a, b, isNumber, args, ss, |ps|);
    ParsedOneMore(a, b, slots, ps, args, ss, slot, p);
  }

  lemma {:induction false} RejectedEarly(isNumber: nat -> bool, strtodec: string -> Option<int>, ss: seq<string>, j: nat)
    requires j <= |ss| && Params(isNumber, strtodec, ss[..j]).None?
    ensures Params(isNumber, strtodec, ss).None?
    decreases |ss| - j
  {
    if j == |ss| {
      assert ss[..j] == ss;
    } else {
      assert ss[..j + 1][..j] == ss[..j];
      RejectedEarly(isNumber, strtodec, ss, j + 1);
    }
  }

  /** Lines 294-373 of demo_cmd_execute: the text between the parentheses is cut into arguments, these are
      converted, and missing ones defaulted. The parameters are the specified ones if no single quote damages
      an argument behind it. */
  method Arguments(buf: array<char>, begin: nat, end: nat, paramCnt: int,
                   isNumber: nat -> bool, strtodec: string -> Option<int>, ghost p: string)
    returns (r: Option<seq<Slot>>, ghost args: seq<nat>, ghost pieces: seq<char>)
    requires begin < end < buf.Length && p == buf[begin + 1..end] && NUL !in p
    requires ZeroTail(buf[..]) || Undamaged(isNumber, Split(p, Max(1, paramCnt)), buf.Length - begin - 1)
    modifies buf
    ensures ArgsAt(pieces, args, Split(p, Max(1, paramCnt)), end) && SameOutside(old(buf[..]), pieces, begin + 1, end + 1)
    ensures match Convert(pieces, args, |args|, isNumber, strtodec)
            case None => r.None?
            case Some(c) => r.Some? && buf[..] == c.buffer && Defaulted(r.value, c.slots, isNumber, paramCnt)
    ensures Undamaged(isNumber, Split(p, Max(1, paramCnt)), buf.Length - begin - 1) ==>
            var ps := Params(isNumber, strtodec, Split(p, Max(1, paramCnt)));
            && (r.Some? <==> ps.Some?)
            && (r.Some? ==>
                && |ps.value| <= |r.value|
                && (|r.value| == paramCnt || |r.value| == |ps.value| > paramCnt)
                && (forall j | 0 <= j < |ps.value| :: Denotes(buf[..], r.value[j], ps.value[j]))
                && (forall j | |ps.value| <= j < |r.value| :: r.value[j] == if isNumber(j) then Int(-1) else NullPtr))
  {
    hide Split, SplitAll, Params, ArgsAt, Undamaged, Denotes, Convert, ZeroTail, SameOutside;
    var at := SplitArgs(buf, begin, end, paramCnt, p);
    args, pieces := at, buf[..];
    assert old(buf[..])[begin + 1..end] == p;
    CutKeepsTail(old(buf[..]), pieces, begin, end);
    r := ParseArgs(buf, at, isNumber, strtodec, Split(p, Max(1, paramCnt)), end);
    if r.None? {
      return;
    }
    var slots := r.value;
    ghost var given := |slots|;
    while |slots| < paramCnt
      invariant given <= |slots| && (|slots| <= paramCnt || |slots| == given)
      invariant slots[..given] == r.value
      invariant forall j | given <= j < |slots| :: slots[j] == if isNumber(j) then Int(-1) else NullPtr
    {
      slots := slots + [if isNumber(|slots|) then Int(-1) else NullPtr];
    }
    assert forall j | 0 <= j < given :: slots[j] == slots[..given][j];
    r := Some(slots);
  }

  /** The given parameters, and a default for every missing one. */
  ghost predicate Defaulted(all: seq<Slot>, given: seq<Slot>, isNumber: nat -> bool, paramCnt: int) {
    && given <= all && (|all| == paramCnt || |all| == |given| > paramCnt)
    && forall j | |given| <= j < |all| :: all[j] == if isNumber(j) then Int(-1) else NullPtr
  }

  lemma CutKeepsTail(a: seq<char>, b: seq<char>, begin: nat, end: nat)
    requires begin < end < |a| && SameOutside(a, b, begin + 1, end + 1) && NUL !in a[begin + 1..end] && b[end] == NUL
    ensures ZeroTail(a) ==> ZeroTail(b)
  {
    if ZeroTail(a) && begin + 1 < end {
      assert a[end - 1] == a[begin + 1..end][end - begin - 2] != NUL;
      assert end - 1 < |a| - TAIL;
    }
  }

  lemma DamagedText(a: seq<char>, b: seq<char>, q: nat)
    requires LoneRewrite(a, b, q) && a[q + 1] == NUL && CStr(a, q + 2, "a\\b")
    ensures CStr(b, q + 2, "ab")
  {
    hide LoneRewrite, Unescape;
    LoneSize(a, b, q);
    var w := a[q + 1..q + 256];
    var t := "a\\b";
    assert a[q + 2 + 0] == t[0] && a[q + 2 + 1] == t[1] && a[q + 2 + 2] == t[2];
    assert w == [NUL] + (['a'] + ([ESC, 'b'] + ([NUL] + w[5..])));
    UnescapePlain(NUL, w[5..]);
    UnescapePair('b', [NUL] + w[5..]);
    UnescapePlain('a', [ESC, 'b'] + ([NUL] + w[5..]));
    UnescapePlain(NUL, ['a'] + ([ESC, 'b'] + ([NUL] + w[5..])));
    var u := Unescape(w) + [NUL];
    assert u[1] == 'a' && u[2] == 'b' && u[3] == NUL;
    LoneBytes(a, b, q, 1);
    LoneBytes(a, b, q, 2);
    LoneBytes(a, b, q, 3);
  }

  lemma DamagedLayout(b: seq<char>, args: seq<nat>, end: nat)
    requires ArgsAt(b, args, Split(DAMAGING, 2), end)
    ensures |args| == 2 && args[1] == args[0] + 3 && TextAt(args[0], " \"") == args[0] + 1
    ensures Trim(" \"") == [QUOTE]
    ensures CStr(b, args[0], " \"") && CStr(b, args[1], "a\\b") && b[args[0] + 2] == NUL
  {
    DamagingText();
    var ss := [" \"", "a\\b"];
    assert CStr(b, args[0], ss[0]) && CStr(b, args[1], ss[1]);
    assert args[1] == args[0] + Offset(ss, 1);
    assert ss[0][1..] == [QUOTE];
    assert TrimLeft(ss[0]) == TrimLeft([QUOTE]) == [QUOTE];
  }

  /** The conversion loop on the two arguments of DAMAGING: the second one should arrive as a backslash
      between two letters and arrives without it. */
  method DamagedNeighbour(buf: array<char>, begin: nat, end: nat) returns (r: seq<Slot>)
    requires begin < end < buf.Length && buf[begin + 1..end] == DAMAGING && begin + 258 < buf.Length
    modifies buf
    ensures |r| == 2 && r[1].At? && CStr(buf[..], r[1].pos, "ab")
    ensures TextParams(Split(DAMAGING, 2))[1] == Text("a\\b") && !Denotes(buf[..], r[1], Text("a\\b"))
  {
    DamagingText();
    var text := (j: nat) => false;
    var dec: string -> Option<int> := (s: string) => None;
    hide CStr, ArgsAt, LoneRewrite, Split, SplitAll, SameOutside, Trim, TrimLeft, Blanked, TextAt, Effect, SlotOf;
    var args := SplitArgs(buf, begin, end, 2, DAMAGING);
    ghost var a := buf[..];
    DamagedLayout(a, args, end);
    var first := OneParam(buf, args[0], 0, text, dec, " \"");
    NothingBlanked(a, args[0] + 2);
    DamagedText(a, buf[..], args[0] + 1);
    NoTrim();
    var second := OneParam(buf, args[1], 1, text, dec, "ab");
    r := [first.value, second.value];
    TwoStrings(buf[..], r[1].pos);
  }

  lemma HarmlessLayout(b: seq<char>, args: seq<nat>, end: nat)
    requires ArgsAt(b, args, Split(HARMLESS, 2), end)
    ensures |args| == 2 && args[1] == args[0] + 3 && TextAt(args[0], " \"") == args[0] + 1
    ensures Trim(" \"") == [QUOTE]
    ensures CStr(b, args[0], " \"") && CStr(b, args[1], "\"\\a\"") && b[args[0] + 2] == NUL
  {
    HarmlessText();
    var ss := [" \"", "\"\\a\""];
    assert CStr(b, args[0], ss[0]) && CStr(b, args[1], ss[1]);
    assert args[1] == args[0] + Offset(ss, 1);
    assert ss[0][1..] == [QUOTE];
    assert TrimLeft(ss[0]) == TrimLeft([QUOTE]) == [QUOTE];
  }

  lemma HarmlessRewrite(a: seq<char>, b: seq<char>, q: nat)
    requires LoneRewrite(a, b, q) && a[q + 1] == NUL && CStr(a, q + 2, "\"\\a\"")
    ensures CStr(b, q + 2, "\"a\"")
  {
    hide LoneRewrite, Unescape;
    LoneSize(a, b, q);
    var w := a[q + 1..q + 256];
    var t := "\"\\a\"";
    assert a[q + 2 + 0] == t[0] && a[q + 2 + 1] == t[1] && a[q + 2 + 2] == t[2] && a[q + 2 + 3] == t[3];
    var r3 := [QUOTE] + ([NUL] + w[6..]);
    var r2 := [ESC, 'a'] + r3;
    assert w == [NUL] + ([QUOTE] + r2);
    UnescapePlain(NUL, w[6..]);
    UnescapePlain(QUOTE, [NUL] + w[6..]);
    UnescapePair('a', r3);
    UnescapePlain(QUOTE, r2);
    UnescapePlain(NUL, [QUOTE] + r2);
    var u := Unescape(w) + [NUL];
    assert u[1] == QUOTE && u[2] == 'a' && u[3] == QUOTE && u[4] == NUL;
    LoneBytes(a, b, q, 1);
    LoneBytes(a, b, q, 2);
    LoneBytes(a, b, q, 3);
    LoneBytes(a, b, q, 4);
  }

  /** The loop on the two arguments of HARMLESS: the second one is rewritten, and arrives as specified. */
  method HarmlessNeighbour(buf: array<char>, begin: nat, end: nat) returns (r: seq<Slot>)
    requires begin < end < buf.Length && buf[begin + 1..end] == HARMLESS && begin + 258 < buf.Length
    modifies buf
    ensures |r| == 2 && TextParam(Split(HARMLESS, 2)[1]) == Text("a") && Denotes(buf[..], r[1], Text("a"))
  {
    HarmlessText();
    var text := (j: nat) => false;
    var dec: string -> Option<int> := (s: string) => None;
    hide CStr, ArgsAt, LoneRewrite, Split, SplitAll, SameOutside, Trim, TrimLeft, Blanked, TextAt, Effect, SlotOf;
    var args := SplitArgs(buf, begin, end, 2, HARMLESS);
    ghost var a := buf[..];
    HarmlessLayout(a, args, end);
    var first := OneParam(buf, args[0], 0, text, dec, " \"");
    NothingBlanked(a, args[0] + 2);
    HarmlessRewrite(a, buf[..], args[0] + 1);
    PlainQuoted();
    var second := OneParam(buf, args[1], 1, text, dec, "\"a\"");
    r := [first.value, second.value];
  }

  lemma PlainQuoted()
    ensures Trim("\"a\"") == "\"a\"" && Unquote("\"a\"") == "a"
  {
    QuotedIsTrim("\"a\"");
    assert "\"a\""[1..2] == ['a'] + [];
    UnescapePlain('a', []);
  }

  lemma NothingBlanked(a: seq<char>, x: nat)
    ensures Blanked(a, x, x) == a
  {
  }

  lemma NoTrim()
    ensures Trim("ab") == "ab" && Unquote("ab") == "ab"
  {
  }

  lemma TwoStrings(b: seq<char>, pos: nat)
    requires CStr(b, pos, "ab")
    ensures !CStr(b, pos, "a\\b")
  {
    var s, t := "ab", "a\\b";
    assert b[pos + 1] == s[1] != t[1];
  }

  /** An encoded list of strings, typed between the parentheses, reaches the command as itself. */
  method EncodedArguments(buf: array<char>, begin: nat, end: nat, paramCnt: int, ghost l: seq<string>)
    returns (r: Option<seq<Slot>>)
    requires l != [] && begin < end < buf.Length && buf[begin + 1..end] == Joined(l) && NUL !in Joined(l)
    requires AllSurvive(l, Min(|l|, Max(1, paramCnt)))
    modifies buf
    ensures r.Some? && Min(|l|, Max(1, paramCnt)) <= |r.value|
    ensures forall j | 0 <= j < Min(|l|, Max(1, paramCnt)) :: r.value[j].At? && CStr(buf[..], r.value[j].pos, l[j])
    ensures |l| <= paramCnt ==>
      |r.value| == paramCnt && forall j | 0 <= j < |l| :: r.value[j].At? && CStr(buf[..], r.value[j].pos, l[j])
  {
    hide Split, Joined, Quoted, AllSurvive, CStr, TextParams, Texts, Params;
    var text := (j: nat) => false;
    var dec: string -> Option<int> := (s: string) => None;
    ghost var ss := Split(Joined(l), Max(1, paramCnt));
    SplitSurvivors(l, Max(1, paramCnt));
    RoundTrip(l, Max(1, paramCnt));
    SurvivorsUndamaged(text, l, Max(1, paramCnt), buf.Length - begin - 1);
    hide Undamaged, ZeroTail, Convert, ArgsAt, SameOutside;
    AllText(text, dec, ss);
    TextsAt(l, Min(|l|, Max(1, paramCnt)));
    var got, _, _ := Arguments(buf, begin, end, paramCnt, text, dec, Joined(l));
    r := got;
  }

  lemma SurvivorsUndamaged(isNumber: nat -> bool, l: seq<string>, limit: nat, room: nat)
    requires l != [] && limit >= 1 && AllSurvive(l, Min(|l|, limit))
    ensures Undamaged(isNumber, Split(Joined(l), limit), room)
  {
    hide Split, Joined, Quoted, AllSurvive, Trim;
    SplitSurvivors(l, limit);
    var ss := Split(Joined(l), limit);
    forall j | 0 <= j < |ss| ensures Trim(ss[j]) != [QUOTE] {
      QuotedIsTrim(Quoted(l[j]));
    }
  }

  lemma TextsAt(l: seq<string>, n: nat)
    requires n <= |l|
    ensures |Texts(l, n)| == n && forall j | 0 <= j < n :: Texts(l, n)[j] == Text(l[j])
  {
  }

  lemma {:induction false} AllText(isNumber: nat -> bool, strtodec: string -> Option<int>, ss: seq<string>)
    requires forall j: nat :: !isNumber(j)
    ensures Params(isNumber, strtodec, ss) == Some(TextParams(ss))
  {
    if ss != [] {
      var front := ss[..|ss| - 1];
      AllText(isNumber, strtodec, front);
      assert TextParams(ss) == TextParams(front) + [TextParam(ss[|ss| - 1])];
    }
  }
}
