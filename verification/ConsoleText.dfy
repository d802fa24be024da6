/** The console's receive buffer as a sequence of characters, and what each step of the argument conversion
    of demo/console/wm_demo_console_task.c makes of it, whatever the buffer holds. */
module ConsoleText {
  import opened CTypes
  import opened ConsoleArgs

  const NUL: char := '\0'

  // ---- strings in the buffer

  /** s is the NUL-terminated string at pos. */
  ghost predicate CStr(b: seq<char>, pos: nat, s: string) {
    && pos + |s| < |b|
    && (forall i | 0 <= i < |s| :: b[pos + i] == s[i] && s[i] != NUL)
    && b[pos + |s|] == NUL
  }

  /** The characters from pos to the next NUL. */
  function StrAt(b: seq<char>, pos: nat): string
    decreases |b| - pos
  {
    if pos >= |b| || b[pos] == NUL then [] else [b[pos]] + StrAt(b, pos + 1)
  }

  lemma {:induction false} StrAtIs(b: seq<char>, pos: nat, s: string)
    requires CStr(b, pos, s)
    ensures StrAt(b, pos) == s
    decreases |s|
  {
    if s != [] {
      assert b[pos + 0] == s[0];
      forall i | 0 <= i < |s| - 1 ensures b[pos + 1 + i] == s[1..][i] {
        assert b[pos + (i + 1)] == s[i + 1];
      }
      StrAtIs(b, pos + 1, s[1..]);
    }
  }

  lemma {:induction false} StrAtEnds(b: seq<char>, pos: nat, e: nat)
    requires pos <= e < |b| && b[e] == NUL
    ensures CStr(b, pos, StrAt(b, pos)) && pos + |StrAt(b, pos)| <= e
    decreases e - pos
  {
    if b[pos] != NUL {
      StrAtEnds(b, pos + 1, e);
      var t := StrAt(b, pos + 1);
      forall i | 0 <= i < |t| + 1 ensures b[pos + i] == ([b[pos]] + t)[i] != NUL {
        if i > 0 {
          assert b[pos + 1 + (i - 1)] == t[i - 1];
        }
      }
    }
  }

  ghost predicate SameOutside(a: seq<char>, b: seq<char>, lo: nat, hi: nat) {
    |a| == |b| && forall i | 0 <= i < |a| && !(lo <= i < hi) :: a[i] == b[i]
  }

  lemma Untouched(a: seq<char>, b: seq<char>, lo: nat, hi: nat, pos: nat, s: string)
    requires CStr(a, pos, s) && SameOutside(a, b, lo, hi)
    requires pos + |s| < lo || hi <= pos
    ensures CStr(b, pos, s)
  {
  }

  // ---- trimming, unescaping and unquoting

  /** b with NUL at the positions from lo to hi. */
  function Blanked(b: seq<char>, lo: nat, hi: nat): (r: seq<char>)
    ensures |r| == |b|
  {
    seq(|b|, i requires 0 <= i < |b| => if lo <= i < hi then NUL else b[i])
  }

  /** b with the backslashes of size characters from base deleted: the text moves down, is terminated, and the
      places it no longer needs hold copies of its last character. */
  function Unescaped(b: seq<char>, base: nat, size: nat): (r: seq<char>)
    requires base + size < |b|
    ensures |r| == |b|
  {
    var w := b[base..base + size];
    var u := Unescape(w);
    seq(|b|, x requires 0 <= x < |b| =>
      if x < base || base + size < x then b[x]
      else if x - base < |u| then u[x - base]
      else if x - base == |u| then NUL
      else if x < base + size then Last(w)
      else b[x])
  }

  /** How much of the buffer the filter may rewrite: its argument, except that the length of a
      lone quote wraps to 255 and the loop runs over the 255 bytes behind it. */
  function FilterReach(s: string): nat { if s == [QUOTE] then 256 else |s| }

  /** The closing quote is seen; for a lone quote it is the opening one. */
  predicate IsClosed(s: string) { 1 <= |s| <= 256 && s[0] == QUOTE && Last(s) == QUOTE }

  /** The buffer after demo_cmd_quotation_filter took the string s at pos. */
  function Filtered(b: seq<char>, pos: nat, s: string): (r: seq<char>)
    ensures |r| == |b|
  {
    if IsClosed(s) && pos + FilterReach(s) < |b| then
      Unescaped(b[pos + |s| - 1 := NUL], pos + 1, if |s| == 1 then 255 else |s| - 2)
    else b
  }

  // ---- one argument

  /** A parameter as demo_call_fn receives it: NULL, a pointer into the buffer, or a number. */
  datatype Slot = NullPtr | At(pos: nat) | Int(n: int)

  /** Where the text of an argument at pos starts. */
  function TextAt(pos: nat, s: string): nat { pos + |s| - |TrimLeft(s)| }

  /** The buffer after the argument s at pos was converted. */
  function Effect(b: seq<char>, pos: nat, s: string, text: bool): (r: seq<char>)
    ensures |r| == |b|
  {
    var q, t := TextAt(pos, s), Trim(s);
    var trimmed := Blanked(b, q + |t|, pos + |s|);
    if text && t != [] then Filtered(trimmed, q, t) else trimmed
  }

  /** What the command receives for it, or None if strtodec rejects it. */
  function SlotOf(pos: nat, s: string, isNumber: nat -> bool, strtodec: string -> Option<int>, j: nat): Option<Slot> {
    var q, t := TextAt(pos, s), Trim(s);
    if !isNumber(j) then Some(if t == [] then NullPtr else if t[0] == QUOTE then At(q + 1) else At(q))
    else if t == [] then Some(Int(-1))
    else match strtodec(t)
         case None => None
         case Some(n) => Some(Int(n))
  }

  // ---- all arguments

  datatype Conversion = Conversion(buffer: seq<char>, slots: seq<Slot>)

  /** The first n arguments converted one after the other, each as its turn finds it. */
  function Convert(b: seq<char>, args: seq<nat>, n: nat, isNumber: nat -> bool, strtodec: string -> Option<int>)
    : (r: Option<Conversion>)
    requires n <= |args|
    ensures r.Some? ==> |r.value.slots| == n && |r.value.buffer| == |b|
  {
    if n == 0 then Some(Conversion(b, [])) else
      match Convert(b, args, n - 1, isNumber, strtodec)
      case None => None
      case Some(c) =>
        var s := StrAt(c.buffer, args[n - 1]);
        match SlotOf(args[n - 1], s, isNumber, strtodec, n - 1)
        case None => None
        case Some(slot) => Some(Conversion(Effect(c.buffer, args[n - 1], s, !isNumber(n - 1)), c.slots + [slot]))
  }

  lemma ConvertNone(b: seq<char>, args: seq<nat>, isNumber: nat -> bool, strtodec: string -> Option<int>)
    ensures Convert(b, args, 0, isNumber, strtodec) == Some(Conversion(b, []))
  {
  }

  lemma ConvertStep(b: seq<char>, args: seq<nat>, n: nat, isNumber: nat -> bool, strtodec: string -> Option<int>)
    requires n < |args| && Convert(b, args, n, isNumber, strtodec).Some?
    ensures var c := Convert(b, args, n, isNumber, strtodec).value;
      var s := StrAt(c.buffer, args[n]);
      var slot := SlotOf(args[n], s, isNumber, strtodec, n);
      Convert(b, args, n + 1, isNumber, strtodec)
      == if slot.None? then None
         else Some(Conversion(Effect(c.buffer, args[n], s, !isNumber(n)), c.slots + [slot.value]))
  {
  }

  lemma {:induction false} RejectedStays(b: seq<char>, args: seq<nat>, n: nat, m: nat,
                                         isNumber: nat -> bool, strtodec: string -> Option<int>)
    requires n <= m <= |args| && Convert(b, args, n, isNumber, strtodec).None?
    ensures Convert(b, args, m, isNumber, strtodec).None?
  {
    if n < m {
      RejectedStays(b, args, n, m - 1, isNumber, strtodec);
    }
  }

  // ---- zeros behind the command

  const TAIL: nat := 257

  /** The buffer ends in at least 257 zeros: more than a lone quote rewrites. */
  ghost predicate ZeroTail(b: seq<char>) {
    |b| >= TAIL && forall x | |b| - TAIL <= x < |b| :: b[x] == NUL
  }

  lemma TrimIsInside(s: string)
    ensures |Trim(s)| <= |TrimLeft(s)| <= |s|
  {
    TrimRightShrinks(TrimLeft(s));
  }

  lemma {:induction false} TrimRightShrinks(s: string)
    ensures |TrimRight(s)| <= |s|
  {
    if s != [] && Last(s) == SPACE {
      TrimRightShrinks(s[..|s| - 1]);
    }
  }

  /** Zeros at the end of a text stay zeros at the end of what it unescapes to. */
  lemma {:induction false} ZerosStay(w: string, m: nat)
    requires m <= |w| && forall i | m <= i < |w| :: w[i] == NUL
    ensures |Unescape(w)| <= |w| && forall i | m <= i < |Unescape(w)| :: Unescape(w)[i] == NUL
    decreases |w|
  {
    if w == [] {
    } else if w[0] != ESC {
      ZerosStay(w[1..], if m == 0 then 0 else m - 1);
    } else if |w| > 1 {
      ZerosStay(w[2..], if m <= 2 then 0 else m - 2);
    }
  }

  lemma UnescapedTail(b: seq<char>, base: nat, size: nat, z: nat)
    requires base + size < |b| && forall x | z <= x < |b| :: b[x] == NUL
    ensures forall x | z <= x < |b| :: Unescaped(b, base, size)[x] == NUL
  {
    hide Unescape;
    var w := b[base..base + size];
    var m := if z <= base then 0 else if z <= base + size then z - base else size;
    ZerosStay(w, m);
    forall x | z <= x < |b| ensures Unescaped(b, base, size)[x] == NUL {
      if base <= x < base + size {
        assert Last(w) == b[base + size - 1];
      }
    }
  }

  lemma FilteredTail(b: seq<char>, pos: nat, s: string)
    requires ZeroTail(b)
    ensures ZeroTail(Filtered(b, pos, s))
  {
    hide Unescaped;
    if IsClosed(s) && pos + FilterReach(s) < |b| {
      var size := if |s| == 1 then 255 else |s| - 2;
      UnescapedTail(b[pos + |s| - 1 := NUL], pos + 1, size, |b| - TAIL);
    }
  }

  /** Converting an argument, whatever it has become, keeps the zeros. */
  lemma EffectTail(b: seq<char>, pos: nat, s: string, text: bool)
    requires ZeroTail(b)
    ensures ZeroTail(Effect(b, pos, s, text))
  {
    hide Filtered, Trim, TrimLeft;
    var q, t := TextAt(pos, s), Trim(s);
    FilteredTail(Blanked(b, q + |t|, pos + |s|), q, t);
  }

  /** With zeros behind it, a lone quote has room. */
  lemma TailIsRoom(b: seq<char>, pos: nat)
    requires ZeroTail(b) && pos < |b| && b[pos] != NUL
    ensures pos + 256 < |b|
  {
  }
}
