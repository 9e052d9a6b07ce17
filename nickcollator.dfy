/**
 * The nickcollator module: nick equivalence by configured character
 * substitution followed by exact or ICU-collated comparison, the /NICK
 * override that refuses a nick equivalent to one already in use, and the
 * configuration hooks that build the substitution groups.
 *
 * ICU's UTF-8 decoder and collator are inputs: a `Decoder` gives the UTF-16
 * code units of a UTF-8 string, or None when the string is ill-formed; a
 * `StrColl` is ucol_strcoll on a collator opened at a given strength.
 */
module NickCollator {
  import opened Wrappers
  import opened UString
  import opened ConfigFile

  const MyConf := "nickcollator"
  const StrengthItem := "collator_strength"
  const MappingItem := "mapping"
  /** The characters `MODNAME_configrun` passes to strtok when splitting a mapping entry. */
  const MappingDelims := {',', ' '}

  /** Capacity of the u_from / u_to buffers a group member is decoded into. */
  const MemberCap := 10
  /** Capacity of the u_nick1 / u_nick2 buffers a nick is decoded into. */
  const NickCap := 100

  /** collator_strength -1 means "off"; the others are ICU's UCOL_* strength values. */
  const StrengthOff := -1
  const UcolPrimary := 0
  const UcolSecondary := 1
  const UcolTertiary := 2
  const UcolQuaternary := 3
  const UcolIdentical := 15

  type Decoder = string -> Option<seq<Unit>>
  type StrColl = (int, seq<Unit>, seq<Unit>) -> int

  /** What u_strFromUTF8 leaves in a buffer of a given capacity. */
  datatype Conversion = Converted(units: seq<Unit>, terminated: bool) | ConversionFailed

  /**
   * Ill-formed input (U_INVALID_CHAR_FOUND) and output longer than the
   * buffer (U_BUFFER_OVERFLOW_ERROR) are failures; output exactly as long as
   * the buffer is written without a terminator
   * (U_STRING_NOT_TERMINATED_WARNING, not a failure).
   */
  function FromUtf8(decoded: Option<seq<Unit>>, capacity: nat): Conversion
  {
    match decoded
    case None => ConversionFailed
    case Some(u) =>
      if |u| > capacity then ConversionFailed else Converted(u, |u| < capacity)
  }

  // ---------------------------------------------------------------------
  // The substitution pass (apply_collator_mapping)
  // ---------------------------------------------------------------------

  /** The string being folded, and whether the call's shared ICU status has failed. */
  datatype Fold = Fold(text: seq<Unit>, failed: bool)

  /**
   * The directed pair `from` → `to` applied to the fold state: skipped once
   * the status has failed; a member that fails to decode fails the status;
   * otherwise every occurrence of `from` is replaced by `to`. None where the
   * C code has no defined behaviour: an unterminated or empty `from` buffer,
   * or a result that no longer fits the `cap`-unit string buffer.
   */
  function PairStep(st: Fold, from: string, to: string, decode: Decoder, cap: nat): Option<Fold>
  {
    if st.failed then Some(st)
    else
      var cf := FromUtf8(decode(from), MemberCap);
      if cf.ConversionFailed? then Some(Fold(st.text, true))
      else
        var ct := FromUtf8(decode(to), MemberCap);
        if ct.ConversionFailed? then Some(Fold(st.text, true))
        else if !cf.terminated || |cf.units| == 0 then None
        else
          var r := Replace(st.text, cf.units, ct.units);
          if |r| < cap then Some(Fold(r, false)) else None
  }

  /**
   * The rest of the pass from group `i`, source member `j`, target member
   * `k` on: groups in order, and within a group every ordered pair (j, k)
   * with j != k, j in the outer loop.
   */
  function Run(groups: seq<seq<string>>, decode: Decoder, cap: nat, st: Fold, i: nat, j: nat, k: nat): Option<Fold>
    decreases |groups| - i, if i < |groups| then |groups[i]| - j else 0, if i < |groups| then |groups[i]| - k else 0
  {
    if i >= |groups| then Some(st)
    else if j >= |groups[i]| then Run(groups, decode, cap, st, i + 1, 0, 0)
    else if k >= |groups[i]| then Run(groups, decode, cap, st, i, j + 1, 0)
    else if j == k then Run(groups, decode, cap, st, i, j, k + 1)
    else
      match PairStep(st, groups[i][j], groups[i][k], decode, cap)
      case None => None
      case Some(next) => Run(groups, decode, cap, next, i, j, k + 1)
  }

  /**
   * A group with no member or a single member has no pair (j, k) with
   * j != k, so the pass goes on to the next group without touching the state.
   */
  lemma {:induction false} SmallGroupNoop(groups: seq<seq<string>>, decode: Decoder, cap: nat, st: Fold, i: nat, k: nat)
    requires i < |groups| && |groups[i]| <= 1
    ensures Run(groups, decode, cap, st, i, 0, k) == Run(groups, decode, cap, st, i + 1, 0, 0)
    decreases 1 - k
  {
    if |groups[i]| == 1 && k == 0 {
      SmallGroupNoop(groups, decode, cap, st, i, 1);
    }
  }

  /** The folded form of `s`: one whole pass, starting with a clean status. */
  function Canon(groups: seq<seq<string>>, decode: Decoder, cap: nat, s: seq<Unit>): Option<Fold>
  {
    Run(groups, decode, cap, Fold(s, false), 0, 0, 0)
  }

  /**
   * One step of the replace loop on the ghost side: after replacing the
   * first occurrence at or after `resume`, the text up to the end of the
   * inserted `t` is final and the rest is still to be replaced.
   */
  lemma ReplaceStep(s: seq<Unit>, cur: seq<Unit>, f: seq<Unit>, t: seq<Unit>, resume: nat, pos: nat, next: seq<Unit>, cap: nat)
    requires |f| > 0 && resume <= |cur| < cap && Find(cur, f, resume) == Some(pos)
    requires cur[..resume] + Replace(cur[resume..], f, t) == Replace(s, f, t) && |Replace(s, f, t)| < cap
    requires next == cur[..pos] + t + cur[pos + |f|..]
    ensures pos + |f| <= |cur| && |cur| - |f| + |t| < cap
    ensures pos + |t| <= |next| && |next| - (pos + |t|) < |cur| - resume
    ensures next[..pos + |t|] + Replace(next[pos + |t|..], f, t) == Replace(s, f, t)
  {
    ReplaceAtFirstOccurrence(cur, f, t, resume, pos);
    StepEquation(s, cur, f, t, resume, pos, next, Replace(cur[pos + |f|..], f, t));
    StepLengths(s, cur, f, t, pos, next, cap);
  }

  lemma StepEquation(s: seq<Unit>, cur: seq<Unit>, f: seq<Unit>, t: seq<Unit>, resume: nat, pos: nat, next: seq<Unit>, r: seq<Unit>)
    requires |f| > 0 && resume <= pos && pos + |f| <= |cur|
    requires next == cur[..pos] + t + cur[pos + |f|..] && r == Replace(cur[pos + |f|..], f, t)
    requires cur[..resume] + (cur[resume..pos] + t + r) == Replace(s, f, t)
    ensures next[..pos + |t|] + Replace(next[pos + |t|..], f, t) == Replace(s, f, t)
  {
    SlicesJoin(cur, resume, pos);
    Regroup(cur[..resume], cur[resume..pos], cur[..pos], t, r, Replace(s, f, t));
    SpliceParts(cur, t, pos, |f|);
  }

  lemma StepLengths(s: seq<Unit>, cur: seq<Unit>, f: seq<Unit>, t: seq<Unit>, pos: nat, next: seq<Unit>, cap: nat)
    requires |f| > 0 && pos + |f| <= |cur| < cap && next == cur[..pos] + t + cur[pos + |f|..]
    requires next[..pos + |t|] + Replace(next[pos + |t|..], f, t) == Replace(s, f, t) && |Replace(s, f, t)| < cap
    ensures |cur| - |f| + |t| < cap && pos + |t| <= |next| == |cur| - |f| + |t|
  {
    SpliceParts(cur, t, pos, |f|);
    if |t| >= |f| {
      ReplaceGrows(next[pos + |t|..], f, t);
    }
  }

  lemma SlicesJoin(s: seq<Unit>, i: nat, j: nat)
    requires i <= j <= |s|
    ensures s[..i] + s[i..j] == s[..j]
  {
  }

  lemma Regroup(x: seq<Unit>, y: seq<Unit>, xy: seq<Unit>, t: seq<Unit>, r: seq<Unit>, z: seq<Unit>)
    requires x + (y + t + r) == z && x + y == xy
    ensures (xy + t) + r == z
  {
  }

  lemma SpliceParts(cur: seq<Unit>, t: seq<Unit>, pos: nat, n: nat)
    requires pos + n <= |cur|
    ensures var next := cur[..pos] + t + cur[pos + n..];
      next[..pos + |t|] == cur[..pos] + t && next[pos + |t|..] == cur[pos + n..] &&
      |next| == pos + |t| + |cur[pos + n..]|
  {
    var next := cur[..pos] + t + cur[pos + n..];
    assert next[..pos + |t|] == cur[..pos] + t;
    assert next[pos + |t|..] == cur[pos + n..];
  }

  /** The replacement of one occurrence: move the tail and its terminator, then copy `t` in. */
  method Splice(a: array<UChar>, pos: nat, f: seq<Unit>, t: seq<Unit>, ghost cur: seq<Unit>)
    requires Holds(a, cur) && pos + |f| <= |cur| && |cur| - |f| + |t| < a.Length
    modifies a
    ensures Holds(a, cur[..pos] + t + cur[pos + |f|..])
  {
    var tail := StrLen(a, pos + |f|, cur);
    MemMove(a, pos + |t|, pos + |f|, tail + 1);
    MemCpy(a, pos, t);
    ghost var next := cur[..pos] + t + cur[pos + |f|..];
    forall q | 0 <= q < |next|
      ensures a[q] == next[q]
    {
      if q < pos {
      } else if q < pos + |t| {
      } else {
        assert next[q] == cur[q - |t| + |f|];
      }
    }
  }

  /**
   * One turn of the `while (pos)` loop: splice `t` in at the occurrence and
   * name the position the next search starts from, just after `t`.
   */
  method ReplaceAt(a: array<UChar>, pos: nat, f: seq<Unit>, t: seq<Unit>, ghost s: seq<Unit>, ghost cur: seq<Unit>, ghost resume: nat)
    returns (ghost next: seq<Unit>, from: nat)
    requires Holds(a, cur) && |f| > 0 && resume <= |cur| && Find(cur, f, resume) == Some(pos)
    requires cur[..resume] + Replace(cur[resume..], f, t) == Replace(s, f, t) && |Replace(s, f, t)| < a.Length
    modifies a
    ensures Holds(a, next) && from <= |next| && |next| - from < |cur| - resume
    ensures next[..from] + Replace(next[from..], f, t) == Replace(s, f, t)
    ensures next == cur[..pos] + t + cur[pos + |f|..] && from == pos + |t|
  {
    next := cur[..pos] + t + cur[pos + |f|..];
    ReplaceStep(s, cur, f, t, resume, pos, next, a.Length);
    Splice(a, pos, f, t, cur);
    from := pos + |t|;
  }

  /**
   * The `while (pos)` loop of apply_collator_mapping: replace each
   * occurrence of `f` and resume the search just after the inserted `t`.
   */
  method ReplaceOccurrences(a: array<UChar>, f: seq<Unit>, t: seq<Unit>, ghost s: seq<Unit>)
    requires Holds(a, s) && |f| > 0 && |Replace(s, f, t)| < a.Length
    modifies a
    ensures Holds(a, Replace(s, f, t))
  {
    ghost var cur := s;
    ghost var resume: nat := 0;
    var found, pos := StrStr(a, 0, f, cur);
    NothingReplacedYet(s, f, t);
    while found
      invariant Holds(a, cur) && resume <= |cur|
      invariant Find(cur, f, resume) == if found then Some(pos) else None
      invariant cur[..resume] + Replace(cur[resume..], f, t) == Replace(s, f, t)
      decreases |cur| - resume
    {
      ghost var next;
      var from;
      next, from := ReplaceAt(a, pos, f, t, s, cur, resume);
      cur, resume := next, from;
      found, pos := StrStr(a, from, f, cur);
    }
    NothingLeftToReplace(s, cur, f, t, resume);
  }

  lemma NothingReplacedYet(s: seq<Unit>, f: seq<Unit>, t: seq<Unit>)
    requires |f| > 0
    ensures s[..0] + Replace(s[0..], f, t) == Replace(s, f, t)
  {
    assert s[..0] == [] && s[0..] == s;
  }

  /** When the search from `resume` finds nothing, the string is fully replaced. */
  lemma NothingLeftToReplace(s: seq<Unit>, cur: seq<Unit>, f: seq<Unit>, t: seq<Unit>, resume: nat)
    requires |f| > 0 && resume <= |cur| && Find(cur, f, resume).None?
    requires cur[..resume] + Replace(cur[resume..], f, t) == Replace(s, f, t)
    ensures cur == Replace(s, f, t)
  {
    ReplaceNoOccurrence(cur, f, t, resume);
    assert cur == cur[..resume] + cur[resume..];
  }

  /** Once the shared status has failed, every later pair of the call is skipped. */
  lemma {:induction false} FailedStatusSkipsRest(groups: seq<seq<string>>, decode: Decoder, cap: nat, text: seq<Unit>, i: nat, j: nat, k: nat)
    ensures Run(groups, decode, cap, Fold(text, true), i, j, k) == Some(Fold(text, true))
    decreases |groups| - i, if i < |groups| then |groups[i]| - j else 0, if i < |groups| then |groups[i]| - k else 0
  {
    if i < |groups| {
      if j >= |groups[i]| {
        FailedStatusSkipsRest(groups, decode, cap, text, i + 1, 0, 0);
      } else if k >= |groups[i]| {
        FailedStatusSkipsRest(groups, decode, cap, text, i, j + 1, 0);
      } else {
        FailedStatusSkipsRest(groups, decode, cap, text, i, j, k + 1);
      }
    }
  }

  /**
   * A member that does not fit the 10-unit buffers (or is not UTF-8) stops
   * the pass at its first pair: the string is left as it was then.
   */
  lemma MemberFailureEndsPass(groups: seq<seq<string>>, decode: Decoder, cap: nat, text: seq<Unit>, i: nat, j: nat, k: nat)
    requires i < |groups| && j < |groups[i]| && k < |groups[i]| && j != k
    requires FromUtf8(decode(groups[i][j]), MemberCap).ConversionFailed? ||
             FromUtf8(decode(groups[i][k]), MemberCap).ConversionFailed?
    ensures Run(groups, decode, cap, Fold(text, false), i, j, k) == Some(Fold(text, true))
  {
    FailedStatusSkipsRest(groups, decode, cap, text, i, j, k + 1);
  }

  // ---------------------------------------------------------------------
  // Groups whose members are single code units
  // ---------------------------------------------------------------------

  /** Every member decodes to exactly one code unit, and no two members to the same one. */
  ghost predicate SingleUnitGroup(decode: Decoder, g: seq<string>)
  {
    (forall j :: 0 <= j < |g| ==> decode(g[j]).Some? && |decode(g[j]).value| == 1) &&
    (forall j, k :: 0 <= j < k < |g| ==> decode(g[j]).value != decode(g[k]).value)
  }

  /** The code units of a single-unit group's members. */
  ghost function Units(decode: Decoder, g: seq<string>): (us: seq<Unit>)
    requires SingleUnitGroup(decode, g)
    ensures |us| == |g|
    ensures forall j :: 0 <= j < |g| ==> decode(g[j]) == Some([us[j]])
    ensures forall j, k :: 0 <= j < k < |us| ==> us[j] != us[k]
  {
    var us := seq(|g|, j requires 0 <= j < |g| => decode(g[j]).value[0]);
    assert forall j :: 0 <= j < |g| ==> decode(g[j]).value == [us[j]];
    us
  }

  /** What the group's pairs from (j, k) on do to one code unit. */
  function UnitRun(us: seq<Unit>, c: Unit, j: nat, k: nat): Unit
    decreases |us| - j, |us| - k
  {
    if j >= |us| then c
    else if k >= |us| then UnitRun(us, c, j + 1, 0)
    else if j == k then UnitRun(us, c, j, k + 1)
    else UnitRun(us, if c == us[j] then us[k] else c, j, k + 1)
  }

  /** UnitRun applied to every code unit of `s`. */
  function PointwiseRun(us: seq<Unit>, s: seq<Unit>, j: nat, k: nat): (r: seq<Unit>)
    ensures |r| == |s|
  {
    seq(|s|, q requires 0 <= q < |s| => UnitRun(us, s[q], j, k))
  }

  /** Every member of the group replaced by the first member. */
  function Collapse(us: seq<Unit>, s: seq<Unit>): (r: seq<Unit>)
    ensures |r| == |s|
  {
    seq(|s|, q requires 0 <= q < |s| => if s[q] in us then us[0] else s[q])
  }

  /**
   * The string-level pass over one single-unit group acts on each code unit
   * separately, keeps the length and never fails.
   */
  lemma {:induction false} GroupRun(groups: seq<seq<string>>, decode: Decoder, cap: nat, text: seq<Unit>, i: nat, j: nat, k: nat)
    requires i < |groups| && SingleUnitGroup(decode, groups[i]) && |text| < cap
    ensures Run(groups, decode, cap, Fold(text, false), i, j, k) ==
      Run(groups, decode, cap, Fold(PointwiseRun(Units(decode, groups[i]), text, j, k), false), i + 1, 0, 0)
    decreases |groups[i]| - j, |groups[i]| - k
  {
    var g := groups[i];
    var us := Units(decode, g);
    if j >= |g| {
      assert PointwiseRun(us, text, j, k) == text;
    } else if k >= |g| {
      GroupRun(groups, decode, cap, text, i, j + 1, 0);
      assert PointwiseRun(us, text, j, k) == PointwiseRun(us, text, j + 1, 0);
    } else if j == k {
      GroupRun(groups, decode, cap, text, i, j, k + 1);
      assert PointwiseRun(us, text, j, k) == PointwiseRun(us, text, j, k + 1);
    } else {
      var r := SingleUnitPair(g, decode, cap, text, j, k);
      GroupRun(groups, decode, cap, r, i, j, k + 1);
    }
  }

  /** One pair of a single-unit group replaces one code unit by another and keeps the length. */
  lemma SingleUnitPair(g: seq<string>, decode: Decoder, cap: nat, text: seq<Unit>, j: nat, k: nat) returns (r: seq<Unit>)
    requires SingleUnitGroup(decode, g) && |text| < cap && j < |g| && k < |g| && j != k
    ensures |r| < cap
    ensures PairStep(Fold(text, false), g[j], g[k], decode, cap) == Some(Fold(r, false))
    ensures PointwiseRun(Units(decode, g), text, j, k) == PointwiseRun(Units(decode, g), r, j, k + 1)
  {
    var us := Units(decode, g);
    assert decode(g[j]) == Some([us[j]]) && decode(g[k]) == Some([us[k]]);
    r := Replace(text, [us[j]], [us[k]]);
    ReplaceUnit(text, us[j], us[k]);
  }

  /** A unit outside the group is never touched. */
  lemma {:induction false} UnitRunOutside(us: seq<Unit>, c: Unit, j: nat, k: nat)
    requires c !in us
    ensures UnitRun(us, c, j, k) == c
    decreases |us| - j, |us| - k
  {
    if j < |us| {
      if k >= |us| {
        UnitRunOutside(us, c, j + 1, 0);
      } else {
        UnitRunOutside(us, c, j, k + 1);
      }
    }
  }

  /** The rest of round `j` from its second pair on leaves alone a unit other than us[j]. */
  lemma {:induction false} UnitRunRoundRest(us: seq<Unit>, c: Unit, j: nat, k: nat)
    requires j < |us| && c != us[j]
    ensures UnitRun(us, c, j, k) == UnitRun(us, c, j + 1, 0)
    decreases |us| - k
  {
    if k < |us| {
      UnitRunRoundRest(us, c, j, k + 1);
    }
  }

  /** From round j >= 1 on, a unit that is us[0] or one of us[j..] ends as us[0]. */
  lemma {:induction false} UnitRunLaterRounds(us: seq<Unit>, c: Unit, j: nat)
    requires forall a, b :: 0 <= a < b < |us| ==> us[a] != us[b]
    requires 1 <= j <= |us| && (c == us[0] || c in us[j..])
    ensures UnitRun(us, c, j, 0) == us[0]
    decreases |us| - j
  {
    if j < |us| {
      var v := if c == us[j] then us[0] else c;
      assert UnitRun(us, c, j, 0) == UnitRun(us, v, j, 1);
      assert v != us[j];
      UnitRunRoundRest(us, v, j, 1);
      assert v == us[0] || v in us[j + 1..] by {
        if v != us[0] {
          var q :| j <= q < |us| && us[q] == c;
          assert q != j;
          assert us[j + 1..][q - j - 1] == c;
        }
      }
      UnitRunLaterRounds(us, v, j + 1);
    }
  }

  /** A whole single-unit group maps each of its members to the first member. */
  lemma UnitRunCollapses(us: seq<Unit>, c: Unit)
    requires forall a, b :: 0 <= a < b < |us| ==> us[a] != us[b]
    ensures UnitRun(us, c, 0, 0) == if c in us then us[0] else c
  {
    if c !in us {
      UnitRunOutside(us, c, 0, 0);
    } else if |us| == 1 {
      assert UnitRun(us, c, 0, 0) == UnitRun(us, c, 1, 0);
    } else {
      var v := if c == us[0] then us[1] else c;
      assert UnitRun(us, c, 0, 0) == UnitRun(us, v, 0, 2);
      UnitRunRoundRest(us, v, 0, 2);
      assert v in us[1..] by {
        var q :| 0 <= q < |us| && us[q] == c;
        if v == us[1] {
          assert us[1..][0] == v;
        } else {
          assert us[1..][q - 1] == c;
        }
      }
      UnitRunLaterRounds(us, v, 1);
    }
  }

  /** One round of the three nested loops over a single-unit group collapses it. */
  lemma PointwiseCollapses(us: seq<Unit>, s: seq<Unit>)
    requires forall a, b :: 0 <= a < b < |us| ==> us[a] != us[b]
    ensures PointwiseRun(us, s, 0, 0) == Collapse(us, s)
  {
    forall q | 0 <= q < |s|
      ensures PointwiseRun(us, s, 0, 0)[q] == Collapse(us, s)[q]
    {
      UnitRunCollapses(us, s[q]);
    }
  }

  ghost predicate AllSingleUnit(decode: Decoder, groups: seq<seq<string>>)
  {
    forall i :: 0 <= i < |groups| ==> SingleUnitGroup(decode, groups[i])
  }

  /** Each group from `i` on collapsed in turn. */
  ghost function CollapseFrom(decode: Decoder, groups: seq<seq<string>>, i: nat, s: seq<Unit>): (r: seq<Unit>)
    requires AllSingleUnit(decode, groups)
    ensures |r| == |s|
    decreases |groups| - i
  {
    if i >= |groups| then s
    else CollapseFrom(decode, groups, i + 1, Collapse(Units(decode, groups[i]), s))
  }

  lemma {:induction false} RunCollapses(decode: Decoder, groups: seq<seq<string>>, cap: nat, s: seq<Unit>, i: nat)
    requires AllSingleUnit(decode, groups) && |s| < cap
    ensures Run(groups, decode, cap, Fold(s, false), i, 0, 0) == Some(Fold(CollapseFrom(decode, groups, i, s), false))
    decreases |groups| - i
  {
    if i < |groups| {
      var us := Units(decode, groups[i]);
      GroupRun(groups, decode, cap, s, i, 0, 0);
      PointwiseCollapses(us, s);
      RunCollapses(decode, groups, cap, Collapse(us, s), i + 1);
    }
  }

  /**
   * When every group's members are distinct single code units, the
   * substitution pass never fails, keeps the length, and replaces, group by
   * group in configuration order, every member by its group's first member.
   */
  lemma CanonOfSingleUnitGroups(decode: Decoder, groups: seq<seq<string>>, cap: nat, s: seq<Unit>)
    requires AllSingleUnit(decode, groups) && |s| < cap
    ensures Canon(groups, decode, cap, s) == Some(Fold(CollapseFrom(decode, groups, 0, s), false))
  {
    RunCollapses(decode, groups, cap, s, 0);
  }

  /**
   * Groups that share a member are applied one after the other, not merged:
   * with groups {a, b} and {b, c}, a c becomes b, while b itself becomes a.
   * So the whole pass is not idempotent, and a c and an a fold differently.
   */
  lemma OverlappingGroupsChain(decode: Decoder, a: Unit, b: Unit, c: Unit)
    requires a != b && b != c && a != c
    requires decode("a") == Some([a]) && decode("b") == Some([b]) && decode("c") == Some([c])
    ensures Canon([["a", "b"], ["b", "c"]], decode, NickCap, [c]) == Some(Fold([b], false))
    ensures Canon([["a", "b"], ["b", "c"]], decode, NickCap, [b]) == Some(Fold([a], false))
  {
    var groups := [["a", "b"], ["b", "c"]];
    ChainUnits(decode, a, b, c);
    CanonOfSingleUnitGroups(decode, groups, NickCap, [c]);
    CanonOfSingleUnitGroups(decode, groups, NickCap, [b]);
    ChainCollapse(decode, groups, [a, b], [b, c], [c], [c], [b]);
    ChainCollapse(decode, groups, [a, b], [b, c], [b], [a], [a]);
  }

  /** The two chained groups are single-unit groups with units [a, b] and [b, c]. */
  lemma ChainUnits(decode: Decoder, a: Unit, b: Unit, c: Unit)
    requires a != b && b != c && a != c
    requires decode("a") == Some([a]) && decode("b") == Some([b]) && decode("c") == Some([c])
    ensures AllSingleUnit(decode, [["a", "b"], ["b", "c"]])
    ensures Units(decode, ["a", "b"]) == [a, b] && Units(decode, ["b", "c"]) == [b, c]
  {
    var g0, g1 := ["a", "b"], ["b", "c"];
    assert g0[0] == "a" && g0[1] == "b" && g1[0] == "b" && g1[1] == "c";
    assert SingleUnitGroup(decode, g0) && SingleUnitGroup(decode, g1);
    var groups := [g0, g1];
    assert groups[0] == g0 && groups[1] == g1;
  }

  /** Two groups collapsed in turn: `s` becomes `m` after the first and `r` after the second. */
  lemma ChainCollapse(decode: Decoder, groups: seq<seq<string>>, u0: seq<Unit>, u1: seq<Unit>, s: seq<Unit>, m: seq<Unit>, r: seq<Unit>)
    requires AllSingleUnit(decode, groups) && |groups| == 2
    requires Units(decode, groups[0]) == u0 && Units(decode, groups[1]) == u1
    requires Collapse(u0, s) == m && Collapse(u1, m) == r
    ensures CollapseFrom(decode, groups, 0, s) == r
  {
    assert CollapseFrom(decode, groups, 0, s) == CollapseFrom(decode, groups, 1, m);
    assert CollapseFrom(decode, groups, 1, m) == CollapseFrom(decode, groups, 2, r);
  }

  /**
   * One group of n distinct single-unit members: afterwards no member other
   * than the first occurs, and running the group again changes nothing.
   */
  lemma SingleGroupPass(decode: Decoder, g: seq<string>, cap: nat, s: seq<Unit>)
    requires SingleUnitGroup(decode, g) && |s| < cap
    ensures Canon([g], decode, cap, s).Some?
    ensures var r := Canon([g], decode, cap, s).value.text;
      |r| == |s| &&
      (forall q, m :: 0 <= q < |r| && 1 <= m < |g| ==> r[q] != Units(decode, g)[m]) &&
      Canon([g], decode, cap, r) == Some(Fold(r, false))
  {
    var us := Units(decode, g);
    assert AllSingleUnit(decode, [g]);
    CanonOfSingleUnitGroups(decode, [g], cap, s);
    var r := Collapse(us, s);
    assert CollapseFrom(decode, [g], 0, s) == r;
    CanonOfSingleUnitGroups(decode, [g], cap, r);
    assert CollapseFrom(decode, [g], 0, r) == Collapse(us, r);
    CollapseIdempotent(us, s);
  }

  /** Two strings are the same up to exchanging members of the group. */
  predicate SameClass(us: seq<Unit>, s: seq<Unit>, t: seq<Unit>)
  {
    |s| == |t| && forall q :: 0 <= q < |s| ==> s[q] == t[q] || (s[q] in us && t[q] in us)
  }

  /** Collapsing identifies exactly the strings that differ only by group members. */
  lemma CollapseEqual(us: seq<Unit>, s: seq<Unit>, t: seq<Unit>)
    ensures Collapse(us, s) == Collapse(us, t) <==> SameClass(us, s, t)
  {
    if Collapse(us, s) == Collapse(us, t) {
      forall q | 0 <= q < |s|
        ensures s[q] == t[q] || (s[q] in us && t[q] in us)
      {
        assert Collapse(us, s)[q] == Collapse(us, t)[q];
      }
    }
    if SameClass(us, s, t) {
      forall q | 0 <= q < |s|
        ensures Collapse(us, s)[q] == Collapse(us, t)[q]
      {
      }
    }
  }

  /** Collapsing twice is collapsing once. */
  lemma CollapseIdempotent(us: seq<Unit>, s: seq<Unit>)
    ensures Collapse(us, Collapse(us, s)) == Collapse(us, s)
  {
  }

  // ---------------------------------------------------------------------
  // Nick comparison (compare_nicks) and the /NICK override
  // ---------------------------------------------------------------------

  /** Everything compare_nicks depends on: the loaded groups and strength, and ICU. */
  datatype Comparator = Comparator(groups: seq<seq<string>>, strength: int, decode: Decoder, collate: StrColl)

  /**
   * compare_nicks: 0 means "equivalent". A nick that fails to convert makes
   * the pair equivalent. None where the C code has no defined behaviour: a
   * nick filling its 100-unit buffer without a terminator, or a substitution
   * pass without a defined outcome.
   */
  function Compare(e: Comparator, nick1: string, nick2: string): Option<int>
  {
    var c1 := FromUtf8(e.decode(nick1), NickCap);
    if c1.ConversionFailed? then Some(0)
    else
      var c2 := FromUtf8(e.decode(nick2), NickCap);
      if c2.ConversionFailed? then Some(0)
      else if !c1.terminated || !c2.terminated then None
      else
        var f1 := Canon(e.groups, e.decode, NickCap, c1.units);
        var f2 := Canon(e.groups, e.decode, NickCap, c2.units);
        if f1.None? || f2.None? then None
        else if e.strength == StrengthOff then Some(if f1.value.text == f2.value.text then 0 else 1)
        else Some(e.collate(e.strength, f1.value.text, f2.value.text))
  }

  /** A nick that fails UTF-8 conversion is equivalent to anything. */
  lemma CompareConversionFailure(e: Comparator, nick1: string, nick2: string)
    requires FromUtf8(e.decode(nick1), NickCap).ConversionFailed? || FromUtf8(e.decode(nick2), NickCap).ConversionFailed?
    ensures Compare(e, nick1, nick2) == Some(0)
  {
  }

  /** With the collator off, the result is 0 or 1, and the relation is symmetric and reflexive. */
  lemma CompareOffIsEquivalence(e: Comparator, nick1: string, nick2: string)
    requires e.strength == StrengthOff
    ensures Compare(e, nick1, nick2).Some? ==> Compare(e, nick1, nick2).value in {0, 1}
    ensures Compare(e, nick1, nick2) == Compare(e, nick2, nick1)
    ensures Compare(e, nick1, nick1).Some? ==> Compare(e, nick1, nick1) == Some(0)
  {
  }

  /** Without mapping groups the strings compared are the converted nicks themselves. */
  lemma CompareWithoutMappings(e: Comparator, nick1: string, nick2: string, u1: seq<Unit>, u2: seq<Unit>)
    requires e.groups == []
    requires e.decode(nick1) == Some(u1) && |u1| < NickCap
    requires e.decode(nick2) == Some(u2) && |u2| < NickCap
    ensures Compare(e, nick1, nick2) ==
      Some(if e.strength == StrengthOff then (if u1 == u2 then 0 else 1) else e.collate(e.strength, u1, u2))
  {
  }

  /**
   * With the collator off and one group of distinct single-unit members, two
   * nicks are equivalent exactly when they differ only by exchanging
   * members of the group.
   */
  lemma CompareOffSingleGroup(e: Comparator, g: seq<string>, nick1: string, nick2: string, u1: seq<Unit>, u2: seq<Unit>)
    requires e.strength == StrengthOff && e.groups == [g] && SingleUnitGroup(e.decode, g)
    requires e.decode(nick1) == Some(u1) && |u1| < NickCap
    requires e.decode(nick2) == Some(u2) && |u2| < NickCap
    ensures Compare(e, nick1, nick2) == Some(if SameClass(Units(e.decode, g), u1, u2) then 0 else 1)
  {
    var us := Units(e.decode, g);
    assert AllSingleUnit(e.decode, [g]);
    CanonOfSingleUnitGroups(e.decode, [g], NickCap, u1);
    CanonOfSingleUnitGroups(e.decode, [g], NickCap, u2);
    assert CollapseFrom(e.decode, [g], 0, u1) == Collapse(us, u1);
    assert CollapseFrom(e.decode, [g], 0, u2) == Collapse(us, u2);
    CollapseEqual(us, u1, u2);
  }

  /** The answer override_nick gives a /NICK request. */
  datatype NickReply = PassOn | NickNameInUse(nick: string)

  /** The client-list loop: the first client whose nick is equivalent stops the change. */
  function ScanClients(e: Comparator, newnick: string, clients: seq<string>): Option<NickReply>
    decreases |clients|
  {
    if clients == [] then Some(PassOn)
    else
      match Compare(e, newnick, clients[0])
      case None => None
      case Some(v) => if v == 0 then Some(NickNameInUse(newnick)) else ScanClients(e, newnick, clients[1..])
  }

  /** override_nick: a change to a nick equivalent to one's own always passes. */
  function Decide(e: Comparator, newnick: string, own: string, clients: seq<string>): Option<NickReply>
  {
    match Compare(e, newnick, own)
    case None => None
    case Some(v) => if v == 0 then Some(PassOn) else ScanClients(e, newnick, clients)
  }

  /** Renaming to a nick equivalent to one's own is passed on whatever the other clients are called. */
  lemma DecideSelfRename(e: Comparator, newnick: string, own: string, clients: seq<string>)
    requires Compare(e, newnick, own) == Some(0)
    ensures Decide(e, newnick, own, clients) == Some(PassOn)
  {
  }

  lemma {:induction false} ScanFinds(e: Comparator, newnick: string, clients: seq<string>)
    requires forall q :: 0 <= q < |clients| ==> Compare(e, newnick, clients[q]).Some?
    ensures ScanClients(e, newnick, clients) ==
      Some(if exists q :: 0 <= q < |clients| && Compare(e, newnick, clients[q]) == Some(0)
           then NickNameInUse(newnick) else PassOn)
    decreases |clients|
  {
    if clients != [] {
      ScanFinds(e, newnick, clients[1..]);
      if Compare(e, newnick, clients[0]) != Some(0) {
        if exists q :: 0 <= q < |clients| && Compare(e, newnick, clients[q]) == Some(0) {
          var q :| 0 <= q < |clients| && Compare(e, newnick, clients[q]) == Some(0);
          assert clients[1..][q - 1] == clients[q];
        }
        forall q | 0 <= q < |clients| - 1
          ensures clients[1..][q] == clients[q + 1]
        {
        }
      }
    }
  }

  /**
   * Otherwise the change is refused, with the requested nick in the reply,
   * exactly when some client's nick is equivalent to it.
   */
  lemma DecideCollision(e: Comparator, newnick: string, own: string, clients: seq<string>)
    requires Compare(e, newnick, own).Some? && Compare(e, newnick, own) != Some(0)
    requires forall q :: 0 <= q < |clients| ==> Compare(e, newnick, clients[q]).Some?
    ensures Decide(e, newnick, own, clients) ==
      Some(if exists q :: 0 <= q < |clients| && Compare(e, newnick, clients[q]) == Some(0)
           then NickNameInUse(newnick) else PassOn)
  {
    ScanFinds(e, newnick, clients);
  }

  // ---------------------------------------------------------------------
  // Configuration (MODNAME_configtest / MODNAME_configrun)
  // ---------------------------------------------------------------------

  /** The keywords both hooks accept for collator_strength, in the order they test them. */
  const StrengthKeywords := ["off", "primary", "secondary", "tertiary", "quaternary", "identical"]

  /** The strcasecmp chain shared by both hooks: the strength a keyword selects. */
  function StrengthOf(keyword: string): Option<int>
  {
    if EqualsIgnoreCase(keyword, "off") then Some(StrengthOff)
    else if EqualsIgnoreCase(keyword, "primary") then Some(UcolPrimary)
    else if EqualsIgnoreCase(keyword, "secondary") then Some(UcolSecondary)
    else if EqualsIgnoreCase(keyword, "tertiary") then Some(UcolTertiary)
    else if EqualsIgnoreCase(keyword, "quaternary") then Some(UcolQuaternary)
    else if EqualsIgnoreCase(keyword, "identical") then Some(UcolIdentical)
    else None
  }

  /** Keywords are matched without regard to case, and select one of the six strengths. */
  lemma StrengthOfProperties(k1: string, k2: string)
    ensures EqualsIgnoreCase(k1, k2) ==> StrengthOf(k1) == StrengthOf(k2)
    ensures StrengthOf(k1).Some? ==>
      StrengthOf(k1).value in {StrengthOff, UcolPrimary, UcolSecondary, UcolTertiary, UcolQuaternary, UcolIdentical}
    ensures StrengthOf("Primary") == Some(UcolPrimary) && StrengthOf("OFF") == Some(StrengthOff)
    ensures StrengthOf(k1).None? <==>
      forall q :: 0 <= q < |StrengthKeywords| ==> !EqualsIgnoreCase(k1, StrengthKeywords[q])
  {
    if EqualsIgnoreCase(k1, k2) {
      forall w: string | EqualsIgnoreCase(k1, w)
        ensures EqualsIgnoreCase(k2, w)
      {
        assert forall q :: 0 <= q < |k2| ==> ToLower(k2[q]) == ToLower(k1[q]) == ToLower(w[q]);
      }
      forall w: string | EqualsIgnoreCase(k2, w)
        ensures EqualsIgnoreCase(k1, w)
      {
        assert forall q :: 0 <= q < |k1| ==> ToLower(k1[q]) == ToLower(k2[q]) == ToLower(w[q]);
      }
    }
    assert EqualsIgnoreCase("Primary", "primary");
    assert EqualsIgnoreCase("OFF", "off");
    assert StrengthKeywords[0] == "off" && StrengthKeywords[1] == "primary" && StrengthKeywords[2] == "secondary";
    assert StrengthKeywords[3] == "tertiary" && StrengthKeywords[4] == "quaternary" && StrengthKeywords[5] == "identical";
  }

  /**
   * What both hooks dereference without a check: every item's name, and the
   * value of a collator_strength item.
   */
  predicate WellFormedItems(items: seq<ConfigEntry>)
  {
    forall q :: 0 <= q < |items| ==>
      items[q].name.Some? && (items[q].name == Some(StrengthItem) ==> items[q].value.Some?)
  }

  /** A mapping entry without a name or with an empty one. */
  predicate BlankEntry(e: ConfigEntry)
  {
    e.name.None? || e.name == Some("")
  }

  /** The value of a well-formed collator_strength item. */
  function ValueOf(e: ConfigEntry): string
  {
    match e.value
    case Some(v) => v
    case None => ""
  }

  function MappingErrors(entries: seq<ConfigEntry>): nat
  {
    if entries == [] then 0
    else (if BlankEntry(entries[0]) then 1 else 0) + MappingErrors(entries[1..])
  }

  function ItemErrors(e: ConfigEntry): nat
  {
    if e.name == Some(StrengthItem) then (if StrengthOf(ValueOf(e)).None? then 1 else 0)
    else if e.name == Some(MappingItem) then MappingErrors(e.items)
    else 0
  }

  /** The error count MODNAME_configtest reports for a block's items. */
  function BlockErrors(items: seq<ConfigEntry>): nat
  {
    if items == [] then 0 else ItemErrors(items[0]) + BlockErrors(items[1..])
  }

  /** The configuration state MODNAME_configrun changes. */
  datatype Settings = Settings(mappings: seq<seq<string>>, strength: int)

  /** The state MODNAME_configrun leaves, and whether it returned 1 rather than -1. */
  datatype Loaded = Loaded(settings: Settings, ok: bool)

  /** Mapping entries in order, each appending one group, stopping at the first blank one. */
  function LoadMappings(st: Settings, entries: seq<ConfigEntry>): Loaded
    decreases |entries|
  {
    if entries == [] then Loaded(st, true)
    else if BlankEntry(entries[0]) then Loaded(st, false)
    else
      var group := Tokens(entries[0].name.value, MappingDelims);
      LoadMappings(st.(mappings := st.mappings + [group]), entries[1..])
  }

  function LoadItem(st: Settings, e: ConfigEntry): Loaded
  {
    var a :=
      if e.name != Some(StrengthItem) then Loaded(st, true)
      else match StrengthOf(ValueOf(e))
        case None => Loaded(st, false)
        case Some(v) => Loaded(st.(strength := v), true);
    if !a.ok then a
    else if e.name == Some(MappingItem) then LoadMappings(a.settings, e.items)
    else a
  }

  /** MODNAME_configrun over a block's items, returning at the first error. */
  function LoadItems(st: Settings, items: seq<ConfigEntry>): Loaded
    decreases |items|
  {
    if items == [] then Loaded(st, true)
    else
      var a := LoadItem(st, items[0]);
      if !a.ok then a else LoadItems(a.settings, items[1..])
  }

  /** The rest of the block after a part of it has been loaded into `l`. */
  function Resume(l: Loaded, rest: seq<ConfigEntry>): Loaded
  {
    if l.ok then LoadItems(l.settings, rest) else l
  }

  function EntryGroups(entries: seq<ConfigEntry>): seq<seq<string>>
    decreases |entries|
  {
    if entries == [] then []
    else
      var name := match entries[0].name case Some(n) => n case None => "";
      [Tokens(name, MappingDelims)] + EntryGroups(entries[1..])
  }

  function ItemGroups(e: ConfigEntry): seq<seq<string>>
  {
    if e.name == Some(MappingItem) then EntryGroups(e.items) else []
  }

  function ItemStrength(e: ConfigEntry, s: int): int
  {
    if e.name == Some(StrengthItem) then
      match StrengthOf(ValueOf(e)) case Some(v) => v case None => s
    else s
  }

  /** The groups a block declares, in file order. */
  function BlockGroups(items: seq<ConfigEntry>): seq<seq<string>>
    decreases |items|
  {
    if items == [] then [] else ItemGroups(items[0]) + BlockGroups(items[1..])
  }

  /** The strength a block leaves: the last collator_strength item's, or `s` if there is none. */
  function LastStrength(items: seq<ConfigEntry>, s: int): int
    decreases |items|
  {
    if items == [] then s else LastStrength(items[1..], ItemStrength(items[0], s))
  }

  lemma {:induction false} LoadMappingsAgrees(st: Settings, entries: seq<ConfigEntry>)
    ensures LoadMappings(st, entries).ok <==> MappingErrors(entries) == 0
    ensures MappingErrors(entries) == 0 ==>
      LoadMappings(st, entries).settings == st.(mappings := st.mappings + EntryGroups(entries))
    decreases |entries|
  {
    if entries != [] && !BlankEntry(entries[0]) {
      var group := Tokens(entries[0].name.value, MappingDelims);
      LoadMappingsAgrees(st.(mappings := st.mappings + [group]), entries[1..]);
    }
  }

  lemma LoadItemAgrees(st: Settings, e: ConfigEntry)
    requires e.name == Some(StrengthItem) ==> e.value.Some?
    ensures LoadItem(st, e).ok <==> ItemErrors(e) == 0
    ensures ItemErrors(e) == 0 ==>
      LoadItem(st, e).settings == Settings(st.mappings + ItemGroups(e), ItemStrength(e, st.strength))
  {
    if e.name == Some(MappingItem) {
      LoadMappingsAgrees(st, e.items);
    }
  }

  /**
   * MODNAME_configrun succeeds on exactly the blocks MODNAME_configtest
   * accepts, and then appends the declared groups in order and keeps the
   * last strength given.
   */
  lemma {:induction false} ConfigRunAgreesWithTest(st: Settings, items: seq<ConfigEntry>)
    requires WellFormedItems(items)
    ensures LoadItems(st, items).ok <==> BlockErrors(items) == 0
    ensures BlockErrors(items) == 0 ==>
      LoadItems(st, items).settings == Settings(st.mappings + BlockGroups(items), LastStrength(items, st.strength))
    decreases |items|
  {
    if items != [] {
      var e, rest := items[0], items[1..];
      WellFormedTail(items);
      LoadItemAgrees(st, e);
      var a := LoadItem(st, e);
      ConfigRunAgreesWithTest(a.settings, rest);
      assert LoadItems(st, items) == if !a.ok then a else LoadItems(a.settings, rest);
      assert BlockErrors(items) == ItemErrors(e) + BlockErrors(rest);
      if BlockErrors(items) == 0 {
        assert a.settings == Settings(st.mappings + ItemGroups(e), ItemStrength(e, st.strength));
        assert BlockGroups(items) == ItemGroups(e) + BlockGroups(rest);
        assert LastStrength(items, st.strength) == LastStrength(rest, ItemStrength(e, st.strength));
        assert st.mappings + ItemGroups(e) + BlockGroups(rest) == st.mappings + BlockGroups(items);
      }
    }
  }

  /** The first item of a well-formed block is well formed, and so is the rest. */
  lemma WellFormedTail(items: seq<ConfigEntry>)
    requires WellFormedItems(items) && items != []
    ensures items[0].name.Some? && (items[0].name == Some(StrengthItem) ==> items[0].value.Some?)
    ensures WellFormedItems(items[1..])
  {
    assert items[0] == items[0 + 0];
    forall q | 0 <= q < |items| - 1
      ensures items[1..][q] == items[q + 1]
    {
    }
  }

  // ---------------------------------------------------------------------
  // The module's state and its functions
  // ---------------------------------------------------------------------

  /**
   * u_strFromUTF8 into `dest` with a status shared between calls: skipped
   * when the status has already failed; returns whether it has failed now.
   */
  method StrFromUtf8(dest: array<UChar>, decoded: Option<seq<Unit>>, failedBefore: bool) returns (failed: bool)
    modifies dest
    ensures failedBefore ==> failed && unchanged(dest)
    ensures !failedBefore ==> (failed <==> FromUtf8(decoded, dest.Length).ConversionFailed?)
    ensures !failed ==>
      var c := FromUtf8(decoded, dest.Length);
      c.Converted? && |c.units| <= dest.Length &&
      (forall m :: 0 <= m < |c.units| ==> dest[m] == c.units[m]) &&
      (c.terminated ==> Holds(dest, c.units))
  {
    if failedBefore {
      return true;
    }
    var c := FromUtf8(decoded, dest.Length);
    if c.ConversionFailed? {
      return true;
    }
    forall m | 0 <= m < |c.units| {
      dest[m] := c.units[m];
    }
    if c.terminated {
      dest[|c.units|] := 0;
    }
    failed := false;
  }

  /** muhcfg: the loaded mapping groups, whether a mapping block was seen, and the strength. */
  class CollatorConfig {
    var mappings: seq<seq<string>>
    var gotMapping: bool
    var strength: int

    /** The zeroed structure the module starts from. */
    constructor ()
      ensures mappings == [] && !gotMapping && strength == 0
    {
      mappings := [];
      gotMapping := false;
      strength := 0;
    }

    /** setcfg: no groups, no mapping seen, collator off. */
    method SetCfg()
      modifies this
      ensures mappings == [] && !gotMapping && strength == StrengthOff
    {
      mappings := [];
      gotMapping := false;
      strength := StrengthOff;
    }

    function Engine(decode: Decoder, collate: StrColl): Comparator
      reads this
    {
      Comparator(mappings, strength, decode, collate)
    }

    /** apply_collator_mapping: the substitution pass over a terminated buffer. */
    method ApplyCollatorMapping(buf: array<UChar>, decode: Decoder, ghost s: seq<Unit>)
      requires Holds(buf, s) && Canon(mappings, decode, buf.Length, s).Some?
      modifies buf
      ensures Holds(buf, Canon(mappings, decode, buf.Length, s).value.text)
    {
      ghost var goal := Canon(mappings, decode, buf.Length, s);
      ghost var cur := s;
      var failed := false;
      var i := 0;
      while i < |mappings|
        invariant i <= |mappings| && Holds(buf, cur)
        invariant Run(mappings, decode, buf.Length, Fold(cur, failed), i, 0, 0) == goal
      {
        var group := mappings[i];
        var j := 0;
        while j < |group|
          invariant j <= |group| && Holds(buf, cur)
          invariant Run(mappings, decode, buf.Length, Fold(cur, failed), i, j, 0) == goal
        {
          var k := 0;
          while k < |group|
            invariant k <= |group| && Holds(buf, cur)
            invariant Run(mappings, decode, buf.Length, Fold(cur, failed), i, j, k) == goal
          {
            if j != k && !failed {
              var cf := FromUtf8(decode(group[j]), MemberCap);
              var ct := FromUtf8(decode(group[k]), MemberCap);
              if cf.ConversionFailed? || ct.ConversionFailed? {
                failed := true;
              } else {
                ReplaceOccurrences(buf, cf.units, ct.units, cur);
                cur := Replace(cur, cf.units, ct.units);
              }
            }
            k := k + 1;
          }
          j := j + 1;
        }
        i := i + 1;
      }
    }

    /** compare_nicks: 0 when the two nicks are equivalent. */
    method CompareNicks(nick1: string, nick2: string, decode: Decoder, collate: StrColl) returns (r: int)
      requires Compare(Engine(decode, collate), nick1, nick2).Some?
      ensures r == Compare(Engine(decode, collate), nick1, nick2).value
    {
      var u1 := new UChar[NickCap];
      var u2 := new UChar[NickCap];
      var failed := StrFromUtf8(u1, decode(nick1), false);
      failed := StrFromUtf8(u2, decode(nick2), failed);
      if failed {
        return 0;
      }
      ghost var s1 := FromUtf8(decode(nick1), NickCap).units;
      ghost var s2 := FromUtf8(decode(nick2), NickCap).units;
      ApplyCollatorMapping(u1, decode, s1);
      ApplyCollatorMapping(u2, decode, s2);
      ghost var f1 := Canon(mappings, decode, NickCap, s1).value.text;
      ghost var f2 := Canon(mappings, decode, NickCap, s2).value.text;
      if strength == StrengthOff {
        var eq := StrEquals(u1, u2, f1, f2);
        return if eq then 0 else 1;
      }
      var n1 := StrLen(u1, 0, f1);
      var n2 := StrLen(u2, 0, f2);
      assert u1[..n1] == f1 && u2[..n2] == f2;
      var t1: seq<Unit> := u1[..n1];
      var t2: seq<Unit> := u2[..n2];
      r := collate(strength, t1, t2);
    }

    /**
     * override_nick: `own` is the requesting client's nick and `clients`
     * the nicks on the client list, in list order.
     */
    method OverrideNick(newnick: string, own: string, clients: seq<string>, decode: Decoder, collate: StrColl)
      returns (reply: NickReply)
      requires Decide(Engine(decode, collate), newnick, own, clients).Some?
      ensures reply == Decide(Engine(decode, collate), newnick, own, clients).value
    {
      var self := CompareNicks(newnick, own, decode, collate);
      if self == 0 {
        return PassOn;
      }
      var i := 0;
      while i < |clients|
        invariant i <= |clients|
        invariant ScanClients(Engine(decode, collate), newnick, clients[i..]) ==
          ScanClients(Engine(decode, collate), newnick, clients)
      {
        assert clients[i..][0] == clients[i] && clients[i..][1..] == clients[i + 1..];
        var c := CompareNicks(newnick, clients[i], decode, collate);
        if c == 0 {
          return NickNameInUse(newnick);
        }
        i := i + 1;
      }
      reply := PassOn;
    }

    /** MODNAME_configtest: returns the hook result and what it stores in *errs. */
    method ConfigTest(level: ConfigLevel, ce: ConfigEntry) returns (r: int, errs: Option<int>)
      requires IsOwnBlock(level, ce, MyConf) ==> WellFormedItems(ce.items)
      modifies this`gotMapping
      ensures !IsOwnBlock(level, ce, MyConf) ==> r == 0 && errs == None && gotMapping == old(gotMapping)
      ensures IsOwnBlock(level, ce, MyConf) ==>
        errs == Some(BlockErrors(ce.items)) && r == (if BlockErrors(ce.items) > 0 then -1 else 1) &&
        gotMapping == (old(gotMapping) || exists q :: 0 <= q < |ce.items| && ce.items[q].name == Some(MappingItem))
    {
      if level != ConfigMain || ce.name != Some(MyConf) {
        return 0, None;
      }
      var items := ce.items;
      var errors := 0;
      var i := 0;
      while i < |items|
        invariant i <= |items|
        invariant errors + BlockErrors(items[i..]) == BlockErrors(items)
        invariant gotMapping == (old(gotMapping) || exists q :: 0 <= q < i && items[q].name == Some(MappingItem))
      {
        var e := items[i];
        assert items[i..][0] == e && items[i..][1..] == items[i + 1..];
        if e.name == Some(StrengthItem) {
          var valid := StrengthOf(e.value.value);
          if valid.None? {
            errors := errors + 1;
          }
        } else if e.name == Some(MappingItem) {
          gotMapping := true;
          var m := 0;
          while m < |e.items|
            invariant m <= |e.items|
            invariant errors + MappingErrors(e.items[m..]) + BlockErrors(items[i + 1..]) == BlockErrors(items)
          {
            assert e.items[m..][0] == e.items[m] && e.items[m..][1..] == e.items[m + 1..];
            if BlankEntry(e.items[m]) {
              errors := errors + 1;
            }
            m := m + 1;
          }
        }
        i := i + 1;
      }
      assert items[..] == items;
      return if errors > 0 then -1 else 1, Some(errors);
    }

    /** One mapping entry: a new group of the entry's strtok tokens. */
    method AddMapping(entry: string)
      modifies this`mappings
      ensures mappings == old(mappings) + [Tokens(entry, MappingDelims)]
    {
      mappings := mappings + [[]];
      var pos := 0;
      var tok := StrTok(entry, 0, MappingDelims);
      assert entry[0..] == entry;
      while tok.Some?
        invariant pos <= |entry| && tok == StrTok(entry, pos, MappingDelims)
        invariant |mappings| == |old(mappings)| + 1 && mappings[..|old(mappings)|] == old(mappings)
        invariant mappings[|old(mappings)|] + Tokens(entry[pos..], MappingDelims) == Tokens(entry, MappingDelims)
        decreases |entry| - pos
      {
        StrTokNext(entry, pos, MappingDelims);
        var last := |mappings| - 1;
        mappings := mappings[last := mappings[last] + [tok.value.0]];
        pos := tok.value.1;
        tok := StrTok(entry, pos, MappingDelims);
      }
      StrTokNext(entry, pos, MappingDelims);
      ghost var last := |old(mappings)|;
      assert Tokens(entry[pos..], MappingDelims) == [];
      assert mappings[last] == Tokens(entry, MappingDelims);
      assert mappings == mappings[..last] + [mappings[last]];
    }

    /** MODNAME_configrun: loads the block's items until the first error. */
    method ConfigRun(level: ConfigLevel, ce: ConfigEntry) returns (r: int)
      requires IsOwnBlock(level, ce, MyConf) ==> WellFormedItems(ce.items)
      modifies this`mappings, this`strength
      ensures !IsOwnBlock(level, ce, MyConf) ==> r == 0 && mappings == old(mappings) && strength == old(strength)
      ensures IsOwnBlock(level, ce, MyConf) ==>
        var l := LoadItems(Settings(old(mappings), old(strength)), ce.items);
        Settings(mappings, strength) == l.settings && r == (if l.ok then 1 else -1)
    {
      if level != ConfigMain || ce.name != Some(MyConf) {
        return 0;
      }
      var items := ce.items;
      ghost var goal := LoadItems(Settings(mappings, strength), items);
      var i := 0;
      while i < |items|
        invariant i <= |items|
        invariant LoadItems(Settings(mappings, strength), items[i..]) == goal
      {
        var e := items[i];
        assert items[i..][0] == e && items[i..][1..] == items[i + 1..];
        ghost var before := Settings(mappings, strength);
        if e.name == Some(StrengthItem) {
          var v := StrengthOf(e.value.value);
          if v.None? {
            return -1;
          }
          strength := v.value;
        }
        if e.name == Some(MappingItem) {
          assert Resume(LoadMappings(Settings(mappings, strength), e.items), items[i + 1..]) == goal;
          var m := 0;
          while m < |e.items|
            invariant m <= |e.items|
            invariant Resume(LoadMappings(Settings(mappings, strength), e.items[m..]), items[i + 1..]) == goal
          {
            var entry := e.items[m];
            assert e.items[m..][0] == entry && e.items[m..][1..] == e.items[m + 1..];
            if BlankEntry(entry) {
              return -1;
            }
            AddMapping(entry.name.value);
            m := m + 1;
          }
        }
        i := i + 1;
      }
      r := 1;
    }
  }
}
