/**
 * NUL-terminated UTF-16 strings held in fixed-size ICU `UChar` buffers, and
 * the few ICU string routines the nick collator calls on them
 * (u_strlen, u_strstr, u_memmove, u_memcpy, u_strcmp), together with a
 * reference definition of left-to-right substring replacement.
 */
module UString {
  import opened Wrappers

  /** A UTF-16 code unit (ICU's `UChar`). */
  newtype UChar = x: int | 0 <= x < 0x1_0000

  /** A code unit other than NUL: what a terminated string holds before its terminator. */
  type Unit = u: UChar | u != 0 witness 1

  /** Buffer `a` holds the NUL-terminated string `s`. */
  ghost predicate Holds(a: array<UChar>, s: seq<Unit>)
    reads a
  {
    |s| < a.Length && a[|s|] == 0 && forall q :: 0 <= q < |s| ==> a[q] == s[q]
  }

  /** `f` occurs in `s` starting at index `q`. */
  predicate Occurs(s: seq<Unit>, f: seq<Unit>, q: nat)
  {
    q + |f| <= |s| && s[q..q + |f|] == f
  }

  /** The first occurrence of `f` in `s` at or after index `i` (what u_strstr finds). */
  function Find(s: seq<Unit>, f: seq<Unit>, i: nat): (r: Option<nat>)
    decreases |s| - i
    ensures r.Some? ==> i <= r.value && Occurs(s, f, r.value)
  {
    if i + |f| > |s| then None
    else if Occurs(s, f, i) then Some(i)
    else Find(s, f, i + 1)
  }

  /** Find gives the first occurrence from `i` on, and None only when there is none. */
  lemma {:induction false} FindIsFirst(s: seq<Unit>, f: seq<Unit>, i: nat)
    ensures Find(s, f, i).Some? ==> forall q :: i <= q < Find(s, f, i).value ==> !Occurs(s, f, q)
    ensures Find(s, f, i).None? ==> forall q :: i <= q ==> !Occurs(s, f, q)
    decreases |s| - i
  {
    if i + |f| <= |s| && !Occurs(s, f, i) {
      FindIsFirst(s, f, i + 1);
    }
  }

  /**
   * Reference definition: every occurrence of `f` in `s` replaced by `t`,
   * scanning from left to right and never re-scanning inserted text.
   */
  function Replace(s: seq<Unit>, f: seq<Unit>, t: seq<Unit>): seq<Unit>
    requires |f| > 0
    decreases |s|
  {
    if |s| < |f| then s
    else if s[..|f|] == f then t + Replace(s[|f|..], f, t)
    else [s[0]] + Replace(s[1..], f, t)
  }

  /** When `f` does not occur from `i` on, replacing leaves that suffix alone. */
  lemma {:induction false} ReplaceNoOccurrence(s: seq<Unit>, f: seq<Unit>, t: seq<Unit>, i: nat)
    requires |f| > 0 && i <= |s| && Find(s, f, i).None?
    ensures Replace(s[i..], f, t) == s[i..]
    decreases |s| - i
  {
    if |s[i..]| >= |f| {
      assert !Occurs(s, f, i);
      assert s[i..][..|f|] == s[i..i + |f|];
      assert s[i..][1..] == s[i + 1..];
      ReplaceNoOccurrence(s, f, t, i + 1);
    }
  }

  /** Replacing from `i` reaches the first occurrence `p`, replaces it and carries on after it. */
  lemma {:induction false} ReplaceAtFirstOccurrence(s: seq<Unit>, f: seq<Unit>, t: seq<Unit>, i: nat, p: nat)
    requires |f| > 0 && i <= |s| && Find(s, f, i) == Some(p)
    ensures p + |f| <= |s|
    ensures Replace(s[i..], f, t) == s[i..p] + t + Replace(s[p + |f|..], f, t)
    decreases p - i
  {
    if i == p {
      ReplaceHere(s, f, t, i);
      assert s[i..p] == [];
    } else {
      assert !Occurs(s, f, i) && Find(s, f, i + 1) == Some(p);
      ReplaceAtFirstOccurrence(s, f, t, i + 1, p);
      ReplaceKeepsUnit(s, f, t, i, p, Replace(s[p + |f|..], f, t));
    }
  }

  /** The code unit at a position where `f` does not occur joins the text kept before the occurrence. */
  lemma ReplaceKeepsUnit(s: seq<Unit>, f: seq<Unit>, t: seq<Unit>, i: nat, p: nat, r: seq<Unit>)
    requires |f| > 0 && i < p <= |s| && i + |f| <= |s| && !Occurs(s, f, i)
    requires Replace(s[i + 1..], f, t) == s[i + 1..p] + t + r
    ensures Replace(s[i..], f, t) == s[i..p] + t + r
  {
    ReplacePast(s, f, t, i);
    assert [s[i]] + (s[i + 1..p] + t + r) == ([s[i]] + s[i + 1..p]) + t + r;
    assert [s[i]] + s[i + 1..p] == s[i..p];
  }

  /** An occurrence at `i` is replaced, and replacing carries on after it. */
  lemma ReplaceHere(s: seq<Unit>, f: seq<Unit>, t: seq<Unit>, i: nat)
    requires |f| > 0 && Occurs(s, f, i)
    ensures Replace(s[i..], f, t) == t + Replace(s[i + |f|..], f, t)
  {
    var u := s[i..];
    assert u[..|f|] == s[i..i + |f|];
    assert u[|f|..] == s[i + |f|..];
  }

  /** Where `f` does not occur at `i`, the code unit there is kept. */
  lemma ReplacePast(s: seq<Unit>, f: seq<Unit>, t: seq<Unit>, i: nat)
    requires |f| > 0 && i + |f| <= |s| && !Occurs(s, f, i)
    ensures Replace(s[i..], f, t) == [s[i]] + Replace(s[i + 1..], f, t)
  {
    var u := s[i..];
    assert u[..|f|] == s[i..i + |f|];
    assert u[1..] == s[i + 1..];
  }

  /** A replacement that is at least as long as what it replaces never shortens the string. */
  lemma {:induction false} ReplaceGrows(s: seq<Unit>, f: seq<Unit>, t: seq<Unit>)
    requires 0 < |f| <= |t|
    ensures |Replace(s, f, t)| >= |s|
    decreases |s|
  {
    if |s| >= |f| {
      if s[..|f|] == f {
        ReplaceGrows(s[|f|..], f, t);
      } else {
        ReplaceGrows(s[1..], f, t);
      }
    }
  }

  /**
   * Replacing one code unit `x` by another `y` keeps the length, turns every
   * `x` into `y` and leaves every other code unit where it was.
   */
  lemma {:induction false} ReplaceUnit(s: seq<Unit>, x: Unit, y: Unit)
    ensures |Replace(s, [x], [y])| == |s|
    ensures forall q :: 0 <= q < |s| ==> Replace(s, [x], [y])[q] == if s[q] == x then y else s[q]
    decreases |s|
  {
    if |s| > 0 {
      ReplaceUnit(s[1..], x, y);
      var r := Replace(s[1..], [x], [y]);
      if s[..1] == [x] {
        assert Replace(s, [x], [y]) == [y] + r;
      } else {
        assert Replace(s, [x], [y]) == [s[0]] + r;
      }
    }
  }

  /** After replacing `x` by a different unit `y`, no `x` is left. */
  lemma NoSourceLeft(s: seq<Unit>, x: Unit, y: Unit)
    requires x != y
    ensures forall q :: 0 <= q < |Replace(s, [x], [y])| ==> Replace(s, [x], [y])[q] != x
  {
    ReplaceUnit(s, x, y);
  }

  /** u_strlen(a + from): the number of code units from `from` up to the terminator. */
  method StrLen(a: array<UChar>, from: nat, ghost s: seq<Unit>) returns (n: nat)
    requires Holds(a, s) && from <= |s|
    ensures n == |s| - from
  {
    n := 0;
    while a[from + n] != 0
      invariant from + n <= |s|
      decreases |s| - from - n
    {
      n := n + 1;
    }
  }

  /** Whether `f` is found at index `q` of the string in `a`; never reads past the terminator. */
  method MatchAt(a: array<UChar>, q: nat, f: seq<Unit>, ghost s: seq<Unit>) returns (m: bool)
    requires Holds(a, s) && q <= |s|
    ensures m == Occurs(s, f, q)
  {
    var n := 0;
    while n < |f| && a[q + n] == f[n]
      invariant n <= |f| && q + n <= |s|
      invariant forall d :: 0 <= d < n ==> s[q + d] == f[d]
    {
      n := n + 1;
    }
    m := n == |f|;
    if m {
      assert s[q..q + |f|] == f;
    } else if q + |f| <= |s| {
      assert s[q..q + |f|][n] == s[q + n] != f[n];
    }
  }

  /** u_strstr(a + start, f): the first occurrence of `f` at or after `start`. */
  method StrStr(a: array<UChar>, start: nat, f: seq<Unit>, ghost s: seq<Unit>) returns (found: bool, pos: nat)
    requires Holds(a, s) && start <= |s| && |f| > 0
    ensures Find(s, f, start) == if found then Some(pos) else None
  {
    pos := start;
    while a[pos] != 0
      invariant start <= pos <= |s|
      invariant Find(s, f, start) == Find(s, f, pos)
      decreases |s| - pos
    {
      var m := MatchAt(a, pos, f, s);
      if m {
        return true, pos;
      }
      pos := pos + 1;
    }
    found := false;
  }

  /** u_memmove(a + dst, a + src, n): overlapping copy inside one buffer. */
  method MemMove(a: array<UChar>, dst: nat, src: nat, n: nat)
    requires src + n <= a.Length && dst + n <= a.Length
    modifies a
    ensures forall m :: 0 <= m < a.Length ==>
      a[m] == if dst <= m < dst + n then old(a[src + m - dst]) else old(a[m])
  {
    var moved := a[src..src + n];
    forall m | 0 <= m < n {
      a[dst + m] := moved[m];
    }
  }

  /** u_memcpy(a + dst, t, |t|). */
  method MemCpy(a: array<UChar>, dst: nat, t: seq<Unit>)
    requires dst + |t| <= a.Length
    modifies a
    ensures forall m :: 0 <= m < a.Length ==>
      a[m] == if dst <= m < dst + |t| then t[m - dst] as UChar else old(a[m])
  {
    forall m | 0 <= m < |t| {
      a[dst + m] := t[m];
    }
  }

  /** u_strcmp(a, b) == 0: the two terminated strings are equal. */
  method StrEquals(a: array<UChar>, b: array<UChar>, ghost s: seq<Unit>, ghost t: seq<Unit>) returns (eq: bool)
    requires Holds(a, s) && Holds(b, t)
    ensures eq <==> s == t
  {
    var n := 0;
    while a[n] != 0 && a[n] == b[n]
      invariant n <= |s| && n <= |t|
      invariant s[..n] == t[..n]
      decreases |s| - n
    {
      assert s[..n + 1] == s[..n] + [s[n]] && t[..n + 1] == t[..n] + [t[n]];
      n := n + 1;
    }
    eq := a[n] == b[n];
    if eq {
      assert n == |s| && n == |t|;
      assert s == s[..n] && t == t[..n];
    } else if n < |s| && n < |t| {
      assert s[n] != t[n];
    }
  }
}
