/**
 * The pieces of UnrealIRCd's configuration interface that the three modules
 * read: configuration entries, the hook's level argument, strcasecmp and the
 * strtok tokenizer.
 */
module ConfigFile {
  import opened Wrappers

  /**
   * A ConfigEntry: its name (ce_varname) and value (ce_vardata), each possibly
   * NULL, and its nested entries in file order.
   */
  datatype ConfigEntry = ConfigEntry(name: Option<string>, value: Option<string>, items: seq<ConfigEntry>)

  /** The `type` argument of a configuration hook: CONFIG_MAIN for top-level blocks. */
  datatype ConfigLevel = ConfigMain | ConfigOther

  /** The guard every hook starts with: a top-level block named `blockName`. */
  predicate IsOwnBlock(level: ConfigLevel, ce: ConfigEntry, blockName: string)
  {
    level == ConfigMain && ce.name == Some(blockName)
  }

  /** tolower in the C locale. */
  function ToLower(c: char): char
  {
    if 'A' <= c <= 'Z' then (c as int + 32) as char else c
  }

  /** strcasecmp(a, b) == 0. */
  predicate EqualsIgnoreCase(a: string, b: string)
  {
    |a| == |b| && forall q :: 0 <= q < |a| ==> ToLower(a[q]) == ToLower(b[q])
  }

  /** The fields of `s` between delimiter characters, empty fields included. */
  function Fields(s: string, delims: set<char>): (fs: seq<string>)
    ensures |fs| > 0
    decreases |s|
  {
    if s == [] then [[]]
    else if s[0] in delims then [[]] + Fields(s[1..], delims)
    else
      var rest := Fields(s[1..], delims);
      [[s[0]] + rest[0]] + rest[1..]
  }

  /** The non-empty strings of `fs`, in order. */
  function NonEmpty(fs: seq<string>): seq<string>
  {
    if fs == [] then []
    else (if fs[0] == [] then [] else [fs[0]]) + NonEmpty(fs[1..])
  }

  /** What repeated strtok calls return: the non-empty fields of `s`. */
  function Tokens(s: string, delims: set<char>): seq<string>
  {
    NonEmpty(Fields(s, delims))
  }

  /** `s` joined with the separator `sep`. */
  function Join(xs: seq<string>, sep: char): string
    requires |xs| > 0
  {
    if |xs| == 1 then xs[0] else xs[0] + [sep] + Join(xs[1..], sep)
  }

  predicate DelimiterFree(x: string, delims: set<char>)
  {
    forall q :: 0 <= q < |x| ==> x[q] !in delims
  }

  /** A delimiter-free prefix merges into the first field of what follows it. */
  lemma {:induction false} FieldsPrefix(x: string, r: string, delims: set<char>)
    requires DelimiterFree(x, delims)
    ensures Fields(x + r, delims) == [x + Fields(r, delims)[0]] + Fields(r, delims)[1..]
    decreases |x|
  {
    if x != [] {
      assert (x + r)[1..] == x[1..] + r;
      FieldsPrefix(x[1..], r, delims);
      assert [x[0]] + (x[1..] + Fields(r, delims)[0]) == x + Fields(r, delims)[0];
    } else {
      assert x + r == r;
      assert [] + Fields(r, delims)[0] == Fields(r, delims)[0];
    }
  }

  /** Splitting a join gives back the parts, provided no part holds a delimiter. */
  lemma {:induction false} FieldsOfJoin(xs: seq<string>, sep: char, delims: set<char>)
    requires |xs| > 0 && sep in delims
    requires forall m :: 0 <= m < |xs| ==> DelimiterFree(xs[m], delims)
    ensures Fields(Join(xs, sep), delims) == xs
    decreases |xs|
  {
    if |xs| == 1 {
      FieldsPrefix(xs[0], [], delims);
      assert xs[0] + [] == xs[0];
    } else {
      var r := [sep] + Join(xs[1..], sep);
      assert Join(xs, sep) == xs[0] + r;
      FieldsPrefix(xs[0], r, delims);
      FieldsOfJoin(xs[1..], sep, delims);
      assert r[1..] == Join(xs[1..], sep);
      assert xs[0] + [] == xs[0];
      assert xs == [xs[0]] + xs[1..];
    }
  }

  lemma {:induction false} NonEmptyOfNonEmpty(fs: seq<string>)
    requires forall m :: 0 <= m < |fs| ==> fs[m] != []
    ensures NonEmpty(fs) == fs
    decreases |fs|
  {
    if fs != [] {
      NonEmptyOfNonEmpty(fs[1..]);
      assert fs == [fs[0]] + fs[1..];
    }
  }

  /** Tokenizing a join of non-empty, delimiter-free parts gives back the parts. */
  lemma TokensOfJoin(xs: seq<string>, sep: char, delims: set<char>)
    requires |xs| > 0 && sep in delims
    requires forall m :: 0 <= m < |xs| ==> xs[m] != [] && DelimiterFree(xs[m], delims)
    ensures Tokens(Join(xs, sep), delims) == xs
  {
    FieldsOfJoin(xs, sep, delims);
    NonEmptyOfNonEmpty(xs);
  }

  /** There is one field more than there are separators. */
  lemma {:induction false} FieldsCount(s: string, sep: char)
    ensures |Fields(s, {sep})| == multiset(s)[sep] + 1
    decreases |s|
  {
    if s != [] {
      FieldsCount(s[1..], sep);
      assert s == [s[0]] + s[1..];
      assert multiset(s) == multiset{s[0]} + multiset(s[1..]);
    }
  }

  /** No field holds a delimiter. */
  lemma {:induction false} FieldsDelimiterFree(s: string, delims: set<char>)
    ensures forall m :: 0 <= m < |Fields(s, delims)| ==> DelimiterFree(Fields(s, delims)[m], delims)
    decreases |s|
  {
    if s != [] {
      FieldsDelimiterFree(s[1..], delims);
    }
  }

  lemma {:induction false} NonEmptyLength(fs: seq<string>)
    ensures |NonEmpty(fs)| <= |fs|
    ensures |NonEmpty(fs)| == |fs| <==> forall m :: 0 <= m < |fs| ==> fs[m] != []
    decreases |fs|
  {
    if fs != [] {
      NonEmptyLength(fs[1..]);
      if fs[0] != [] {
        forall m | 1 <= m < |fs| ensures fs[m] == fs[1..][m - 1] {}
      }
    }
  }

  lemma {:induction false} NonEmptyElements(fs: seq<string>, delims: set<char>)
    requires forall m :: 0 <= m < |fs| ==> DelimiterFree(fs[m], delims)
    ensures forall m :: 0 <= m < |NonEmpty(fs)| ==> NonEmpty(fs)[m] != [] && DelimiterFree(NonEmpty(fs)[m], delims)
    decreases |fs|
  {
    if fs != [] {
      NonEmptyElements(fs[1..], delims);
    }
  }

  /** Every token is non-empty and free of delimiters. */
  lemma TokensAreWords(s: string, delims: set<char>)
    ensures forall m :: 0 <= m < |Tokens(s, delims)| ==>
      Tokens(s, delims)[m] != [] && DelimiterFree(Tokens(s, delims)[m], delims)
  {
    FieldsDelimiterFree(s, delims);
    NonEmptyElements(Fields(s, delims), delims);
  }

  /**
   * With one separator there are at most one more tokens than separators, and
   * strictly fewer exactly when some field is empty (",," or a leading or
   * trailing separator, or an empty string).
   */
  lemma TokensCount(s: string, sep: char)
    ensures |Tokens(s, {sep})| <= multiset(s)[sep] + 1
    ensures |Tokens(s, {sep})| < multiset(s)[sep] + 1 <==> [] in Fields(s, {sep})
  {
    FieldsCount(s, sep);
    NonEmptyLength(Fields(s, {sep}));
  }

  /** The first index at or after `pos` that is not a delimiter (or |s|). */
  function SkipDelimiters(s: string, pos: nat, delims: set<char>): (q: nat)
    requires pos <= |s|
    ensures pos <= q <= |s| && (q < |s| ==> s[q] !in delims)
    decreases |s| - pos
  {
    if pos == |s| || s[pos] !in delims then pos else SkipDelimiters(s, pos + 1, delims)
  }

  /** Everything SkipDelimiters steps over is a delimiter. */
  lemma {:induction false} SkippedAreDelimiters(s: string, pos: nat, delims: set<char>)
    requires pos <= |s|
    ensures forall m :: pos <= m < SkipDelimiters(s, pos, delims) ==> s[m] in delims
    decreases |s| - pos
  {
    if pos < |s| && s[pos] in delims {
      SkippedAreDelimiters(s, pos + 1, delims);
    }
  }

  /** The first index at or after `pos` that is a delimiter (or |s|). */
  function TokenEnd(s: string, pos: nat, delims: set<char>): (q: nat)
    requires pos <= |s|
    ensures pos <= q <= |s| && (q < |s| ==> s[q] in delims)
    decreases |s| - pos
  {
    if pos == |s| || s[pos] in delims then pos else TokenEnd(s, pos + 1, delims)
  }

  /** A token runs from its start up to TokenEnd without a delimiter. */
  lemma {:induction false} TokenIsWord(s: string, pos: nat, delims: set<char>)
    requires pos <= |s|
    ensures DelimiterFree(s[pos..TokenEnd(s, pos, delims)], delims)
    decreases |s| - pos
  {
    var e := TokenEnd(s, pos, delims);
    if pos < |s| && s[pos] !in delims {
      TokenIsWord(s, pos + 1, delims);
      assert forall q :: 1 <= q < e - pos ==> s[pos..e][q] == s[pos + 1..e][q - 1];
    }
  }

  /**
   * One strtok call with its saved position at `pos`: the next token and the
   * position just past the delimiter that ended it, or None at the end.
   */
  function StrTok(s: string, pos: nat, delims: set<char>): Option<(string, nat)>
    requires pos <= |s|
  {
    var b := SkipDelimiters(s, pos, delims);
    if b == |s| then None
    else
      var e := TokenEnd(s, b, delims);
      Some((s[b..e], if e < |s| then e + 1 else e))
  }

  /** Leading delimiters do not change the tokens. */
  lemma {:induction false} TokensSkip(x: string, r: string, delims: set<char>)
    requires forall q :: 0 <= q < |x| ==> x[q] in delims
    ensures Tokens(x + r, delims) == Tokens(r, delims)
    decreases |x|
  {
    if x != [] {
      assert (x + r)[1..] == x[1..] + r;
      TokensSkip(x[1..], r, delims);
    } else {
      assert x + r == r;
    }
  }

  /** A word followed by a delimiter is the first token of the rest. */
  lemma TokensAfterWord(x: string, d: char, rest: string, delims: set<char>)
    requires x != [] && DelimiterFree(x, delims) && d in delims
    ensures Tokens(x + [d] + rest, delims) == [x] + Tokens(rest, delims)
  {
    var r := [d] + rest;
    assert x + [d] + rest == x + r;
    FieldsPrefix(x, r, delims);
    assert r[1..] == rest;
    assert Fields(r, delims) == [[]] + Fields(rest, delims);
    assert x + [] == x;
    assert Fields(x + r, delims) == [x] + Fields(rest, delims);
  }

  /** A word on its own is its only token. */
  lemma TokensOfWord(x: string, delims: set<char>)
    requires x != [] && DelimiterFree(x, delims)
    ensures Tokens(x, delims) == [x]
  {
    FieldsPrefix(x, [], delims);
    assert x + [] == x;
    assert Fields(x, delims) == [x];
    assert NonEmpty([x]) == [x] + NonEmpty([]);
  }

  /** strtok returns the tokens one at a time, in order, always making progress. */
  lemma StrTokNext(s: string, pos: nat, delims: set<char>)
    requires pos <= |s|
    ensures StrTok(s, pos, delims).None? ==> Tokens(s[pos..], delims) == []
    ensures StrTok(s, pos, delims).Some? ==>
      var (tok, next) := StrTok(s, pos, delims).value;
      pos < next <= |s| && Tokens(s[pos..], delims) == [tok] + Tokens(s[next..], delims)
  {
    var b := SkipDelimiters(s, pos, delims);
    SkipToWord(s, pos, b, delims);
    if b == |s| {
      assert s[b..] == [];
      assert Tokens([], delims) == NonEmpty([[]]) == [];
    } else {
      var e := TokenEnd(s, b, delims);
      TokenIsWord(s, b, delims);
      var next := if e < |s| then e + 1 else e;
      assert StrTok(s, pos, delims) == Some((s[b..e], next));
      if e < |s| {
        WordThenDelimiter(s, b, e, delims);
      } else {
        assert s[b..e] == s[b..];
        WordAtEnd(s, b, delims);
      }
      assert Tokens(s[pos..], delims) == [s[b..e]] + Tokens(s[next..], delims);
    }
  }

  /** The delimiters strtok skips do not change the tokens. */
  lemma SkipToWord(s: string, pos: nat, b: nat, delims: set<char>)
    requires pos <= |s| && b == SkipDelimiters(s, pos, delims)
    ensures Tokens(s[pos..], delims) == Tokens(s[b..], delims)
  {
    SkippedAreDelimiters(s, pos, delims);
    assert s[pos..] == s[pos..b] + s[b..];
    TokensSkip(s[pos..b], s[b..], delims);
  }

  /** A word ended by a delimiter is the first token; the rest starts after the delimiter. */
  lemma WordThenDelimiter(s: string, b: nat, e: nat, delims: set<char>)
    requires b < e < |s| && s[e] in delims && DelimiterFree(s[b..e], delims)
    ensures Tokens(s[b..], delims) == [s[b..e]] + Tokens(s[e + 1..], delims)
  {
    assert s[b..] == s[b..e] + [s[e]] + s[e + 1..];
    TokensAfterWord(s[b..e], s[e], s[e + 1..], delims);
  }

  /** A word that runs to the end of the string is the last token. */
  lemma WordAtEnd(s: string, b: nat, delims: set<char>)
    requires b < |s| && DelimiterFree(s[b..], delims)
    ensures Tokens(s[b..], delims) == [s[b..]] + Tokens(s[|s|..], delims)
  {
    TokensOfWord(s[b..], delims);
    assert s[|s|..] == [];
    assert Tokens([], delims) == NonEmpty([[]]) == [];
  }
}
