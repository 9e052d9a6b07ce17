/**
 * The configuration and counting code that the socketstats and wwwstats
 * modules share line for line: the `nicks` list parser, the three
 * configuration hooks of a block holding `socket-path` and `nicks` items,
 * and the channel-message hook. Each module has its own copy of the state,
 * here one StatsConfig object per module.
 */
module StatsCommon {
  import opened Wrappers
  import opened ConfigFile

  const HookContinue := 0
  /** INT_MAX: the counters are C `int`s, whose overflow is undefined. */
  const IntMax := 0x7fff_ffff
  const SocketPathItem := "socket-path"
  const NicksItem := "nicks"
  /** The delimiter parse_nick_list passes to strtok_r. */
  const NickDelims := {','}

  /** What the configuration hooks report through config_warn. */
  datatype Warning = UnknownItem(name: string) | NoSocketPath | NoNicks

  // ---------------------------------------------------------------------
  // parse_nick_list
  // ---------------------------------------------------------------------

  /** A token after `while (*nick == ' ') nick++`: leading blanks gone, the rest kept. */
  function StripLeading(s: string): (r: string)
    ensures |r| <= |s|
    ensures r == [] || r[0] != ' '
    decreases |s|
  {
    if s != [] && s[0] == ' ' then StripLeading(s[1..]) else s
  }

  /** StripLeading removes blanks from the front and keeps the rest as it was. */
  lemma {:induction false} StripLeadingSuffix(s: string)
    ensures StripLeading(s) == s[|s| - |StripLeading(s)|..]
    ensures forall q :: 0 <= q < |s| - |StripLeading(s)| ==> s[q] == ' '
    decreases |s|
  {
    if s != [] && s[0] == ' ' {
      StripLeadingSuffix(s[1..]);
      assert s[1..][|s| - 1 - |StripLeading(s)|..] == s[|s| - |StripLeading(s)|..];
    }
  }

  function StripAll(ts: seq<string>): (rs: seq<string>)
    ensures |rs| == |ts| && forall m :: 0 <= m < |ts| ==> rs[m] == StripLeading(ts[m])
  {
    seq(|ts|, m requires 0 <= m < |ts| => StripLeading(ts[m]))
  }

  /** The nicks parse_nick_list stores, in order. */
  function NickList(s: string): seq<string>
  {
    StripAll(Tokens(s, NickDelims))
  }

  /** num_nicks after parse_nick_list: one more than the number of commas. */
  function SlotCount(s: string): nat
  {
    multiset(s)[','] + 1
  }

  /** selected_nicks after parse_nick_list: the nicks, then the zeroed (NULL) slots. */
  function Slots(s: string): seq<Option<string>>
  {
    var nicks := NickList(s);
    seq(SlotCount(s), m requires 0 <= m < SlotCount(s) => if m < |nicks| then Some(nicks[m]) else None)
  }

  /**
   * The nicks always fit the slots, so the `i < num_nicks` guard never cuts
   * the list short; some slots stay NULL exactly when the list has an empty
   * field. No stored nick holds a comma or starts with a blank.
   */
  lemma NickListShape(s: string)
    ensures |NickList(s)| <= SlotCount(s)
    ensures |NickList(s)| < SlotCount(s) <==> [] in Fields(s, NickDelims)
    ensures forall m :: 0 <= m < |NickList(s)| ==>
      DelimiterFree(NickList(s)[m], NickDelims) && (NickList(s)[m] == [] || NickList(s)[m][0] != ' ')
  {
    NickListCount(s);
    NickListWords(s);
  }

  lemma NickListCount(s: string)
    ensures |NickList(s)| == |Tokens(s, NickDelims)|
    ensures |NickList(s)| <= SlotCount(s)
    ensures |NickList(s)| < SlotCount(s) <==> [] in Fields(s, NickDelims)
  {
    TokensCount(s, ',');
  }

  lemma NickListWords(s: string)
    ensures forall m :: 0 <= m < |NickList(s)| ==>
      DelimiterFree(NickList(s)[m], NickDelims) && (NickList(s)[m] == [] || NickList(s)[m][0] != ' ')
  {
    var ts := Tokens(s, NickDelims);
    TokensAreWords(s, NickDelims);
    forall m | 0 <= m < |ts|
      ensures DelimiterFree(NickList(s)[m], NickDelims)
    {
      StripKeepsWord(ts[m]);
    }
  }

  /** Stripping blanks from a comma-free token leaves it comma-free. */
  lemma StripKeepsWord(t: string)
    requires DelimiterFree(t, NickDelims)
    ensures DelimiterFree(StripLeading(t), NickDelims)
  {
    var r := StripLeading(t);
    StripLeadingSuffix(t);
    forall q | 0 <= q < |r|
      ensures r[q] !in NickDelims
    {
      assert r[q] == t[|t| - |r| + q];
    }
  }

  /** When every slot gets a nick, the slots are the nicks in order. */
  lemma SlotsFull(s: string)
    requires |NickList(s)| == SlotCount(s)
    ensures Slots(s) == seq(SlotCount(s), m requires 0 <= m < SlotCount(s) => Some(NickList(s)[m]))
  {
  }

  /**
   * A list written as comma-joined names gives back the names without their
   * leading blanks, with one slot per name.
   */
  lemma NickListOfJoin(xs: seq<string>)
    requires |xs| > 0
    requires forall m :: 0 <= m < |xs| ==> xs[m] != [] && DelimiterFree(xs[m], NickDelims)
    ensures NickList(Join(xs, ',')) == StripAll(xs)
    ensures SlotCount(Join(xs, ',')) == |xs|
    ensures Slots(Join(xs, ',')) == seq(|xs|, m requires 0 <= m < |xs| => Some(StripLeading(xs[m])))
  {
    var j := Join(xs, ',');
    TokensOfJoin(xs, ',', NickDelims);
    assert NickList(j) == StripAll(xs);
    JoinSlotCount(xs);
    SlotsFull(j);
  }

  lemma JoinSlotCount(xs: seq<string>)
    requires |xs| > 0
    requires forall m :: 0 <= m < |xs| ==> DelimiterFree(xs[m], NickDelims)
    ensures SlotCount(Join(xs, ',')) == |xs|
  {
    FieldsOfJoin(xs, ',', NickDelims);
    FieldsCount(Join(xs, ','), ',');
  }

  // ---------------------------------------------------------------------
  // Configuration hooks
  // ---------------------------------------------------------------------

  /** An item that names socket-path or nicks and carries a value. */
  predicate HasValue(e: ConfigEntry, name: string)
  {
    e.name == Some(name) && e.value.Some?
  }

  /** Errors: a blank item name, or a socket-path or nicks item without a value. */
  function ItemErrors(e: ConfigEntry): nat
  {
    if e.name.None? then 1
    else if (e.name == Some(SocketPathItem) || e.name == Some(NicksItem)) && e.value.None? then 1
    else 0
  }

  function ItemWarnings(e: ConfigEntry): seq<Warning>
  {
    match e.name
    case None => []
    case Some(n) => if n == SocketPathItem || n == NicksItem then [] else [UnknownItem(n)]
  }

  /** The items are in file order; these are defined over prefixes, the way the hooks visit them. */
  function TestErrors(items: seq<ConfigEntry>): nat
  {
    if items == [] then 0 else TestErrors(items[..|items| - 1]) + ItemErrors(items[|items| - 1])
  }

  function TestWarnings(items: seq<ConfigEntry>): seq<Warning>
  {
    if items == [] then [] else TestWarnings(items[..|items| - 1]) + ItemWarnings(items[|items| - 1])
  }

  /** The value of the last item called `name` that has one. */
  function LastValue(items: seq<ConfigEntry>, name: string): Option<string>
  {
    if items == [] then None
    else if HasValue(items[|items| - 1], name) then items[|items| - 1].value
    else LastValue(items[..|items| - 1], name)
  }

  /** Each hook visits one more item: how the prefix functions grow by it. */
  lemma PrefixStep(items: seq<ConfigEntry>, i: nat)
    requires i < |items|
    ensures TestErrors(items[..i + 1]) == TestErrors(items[..i]) + ItemErrors(items[i])
    ensures TestWarnings(items[..i + 1]) == TestWarnings(items[..i]) + ItemWarnings(items[i])
    ensures forall name ::
      LastValue(items[..i + 1], name) == if HasValue(items[i], name) then items[i].value else LastValue(items[..i], name)
  {
    assert items[..i + 1][..i] == items[..i] && items[..i + 1][i] == items[i];
  }

  /** LastValue finds a valued item exactly when there is one. */
  lemma {:induction false} LastValueFound(items: seq<ConfigEntry>, name: string)
    ensures LastValue(items, name).Some? <==> exists q :: 0 <= q < |items| && HasValue(items[q], name)
    ensures LastValue(items, name).Some? ==>
      exists q :: 0 <= q < |items| && HasValue(items[q], name) && items[q].value == LastValue(items, name) &&
        forall p :: q < p < |items| ==> !HasValue(items[p], name)
  {
    if items != [] {
      var last := |items| - 1;
      var init := items[..last];
      if HasValue(items[last], name) {
        assert HasValue(items[last], name) && items[last].value == LastValue(items, name);
      } else {
        LastValueFound(init, name);
        assert LastValue(items, name) == LastValue(init, name);
        if LastValue(init, name).Some? {
          var q :| 0 <= q < |init| && HasValue(init[q], name) && init[q].value == LastValue(init, name) &&
            forall p :: q < p < |init| ==> !HasValue(init[p], name);
          assert init[q] == items[q];
          assert forall p :: q < p < |init| ==> init[p] == items[p];
        } else {
          assert forall q :: 0 <= q < |init| ==> init[q] == items[q];
        }
      }
    }
  }

  /** The counting loop of parse_nick_list. */
  method CountSlots(s: string) returns (n: nat)
    ensures n == SlotCount(s)
  {
    n := 1;
    var c := 0;
    while c < |s|
      invariant c <= |s| && n == multiset(s[..c])[','] + 1
    {
      assert s[..c + 1] == s[..c] + [s[c]];
      if s[c] == ',' {
        n := n + 1;
      }
      c := c + 1;
    }
    assert s[..|s|] == s;
  }

  /** The index of the first non-blank character of a token. */
  method SkipBlanks(nick: string) returns (b: nat)
    ensures b <= |nick| && nick[b..] == StripLeading(nick)
  {
    b := 0;
    while b < |nick| && nick[b] == ' '
      invariant b <= |nick| && StripLeading(nick[b..]) == StripLeading(nick)
    {
      assert nick[b..][1..] == nick[b + 1..];
      b := b + 1;
    }
  }

  /** The strtok_r loop of parse_nick_list over freshly zeroed slots. */
  method FillSlots(slots: array<Option<string>>, s: string)
    requires slots.Length == SlotCount(s) && forall m :: 0 <= m < slots.Length ==> slots[m] == None
    modifies slots
    ensures slots[..] == Slots(s)
  {
    var n := slots.Length;
    ghost var done: seq<string> := [];
    var i := 0;
    var pos := 0;
    var tok := StrTok(s, 0, NickDelims);
    assert s[0..] == s;
    assert Consumed(s, 0, done);
    while tok.Some? && i < n
      invariant pos <= |s| && tok == StrTok(s, pos, NickDelims)
      invariant i == |done| <= n
      invariant Consumed(s, pos, done)
      invariant forall m :: 0 <= m < n ==> slots[m] == if m < i then Some(StripLeading(done[m])) else None
      decreases |s| - pos
    {
      ConsumeToken(s, pos, done);
      var nick := tok.value.0;
      PutSlot(slots, i, nick, done);
      done := done + [nick];
      i := i + 1;
      pos := tok.value.1;
      tok := StrTok(s, pos, NickDelims);
    }
    TokensExhausted(s, pos, done);
    SlotsFilled(slots[..], s, done);
  }

  /** One pass of the strtok_r loop: slot `i` gets the token without its leading blanks. */
  method PutSlot(slots: array<Option<string>>, i: nat, nick: string, ghost done: seq<string>)
    requires i == |done| < slots.Length
    requires forall m :: 0 <= m < slots.Length ==> slots[m] == if m < i then Some(StripLeading(done[m])) else None
    modifies slots
    ensures forall m :: 0 <= m < slots.Length ==>
      slots[m] == if m < i + 1 then Some(StripLeading((done + [nick])[m])) else None
  {
    var b := SkipBlanks(nick);
    slots[i] := Some(nick[b..]);
  }

  /** Slots holding the stripped tokens, then NULLs, are what Slots specifies. */
  lemma SlotsFilled(sq: seq<Option<string>>, s: string, done: seq<string>)
    requires |sq| == SlotCount(s) && done == Tokens(s, NickDelims)
    requires forall m :: 0 <= m < |sq| ==> sq[m] == if m < |done| then Some(StripLeading(done[m])) else None
    ensures sq == Slots(s)
  {
    SlotsOfTokens(s);
  }

  /** `done` are the tokens before the strtok_r position `pos`. */
  ghost predicate Consumed(s: string, pos: nat, done: seq<string>)
  {
    pos <= |s| && done + Tokens(s[pos..], NickDelims) == Tokens(s, NickDelims)
  }

  lemma ConsumeToken(s: string, pos: nat, done: seq<string>)
    requires Consumed(s, pos, done) && StrTok(s, pos, NickDelims).Some?
    ensures var (tok, next) := StrTok(s, pos, NickDelims).value;
      pos < next <= |s| && Consumed(s, next, done + [tok])
  {
    StrTokNext(s, pos, NickDelims);
  }

  /** The fill loop has seen every token, whether strtok_r ran out or the slots did. */
  lemma TokensExhausted(s: string, pos: nat, done: seq<string>)
    requires Consumed(s, pos, done)
    requires StrTok(s, pos, NickDelims).None? || |done| >= SlotCount(s)
    ensures done == Tokens(s, NickDelims)
  {
    StrTokNext(s, pos, NickDelims);
    NickListShape(s);
    if StrTok(s, pos, NickDelims).None? {
      assert done + [] == done;
    }
  }

  lemma SlotsOfTokens(s: string)
    ensures |Slots(s)| == SlotCount(s)
    ensures forall m :: 0 <= m < SlotCount(s) ==>
      Slots(s)[m] == if m < |Tokens(s, NickDelims)| then Some(StripLeading(Tokens(s, NickDelims)[m])) else None
  {
  }

  class Channel {
    /** CHANNEL_MESSAGE_COUNT: the channel's message counter in module data. */
    var messageCount: int

    constructor ()
      ensures messageCount == 0
    {
      messageCount := 0;
    }
  }

  /** One module's configuration and counter globals. */
  class StatsConfig {
    /** MYCONF: the name of the module's configuration block. */
    const blockName: string
    var socketPath: Option<string>
    var socketHpath: bool
    /** selected_nicks, with NULL entries as None; no list yet is an empty array. */
    var selectedNicks: array<Option<string>>
    var numNicks: int
    var counter: int

    constructor (name: string)
      ensures blockName == name && socketPath == None && !socketHpath
      ensures selectedNicks.Length == 0 && numNicks == 0 && counter == 0
    {
      blockName := name;
      socketPath := None;
      socketHpath := false;
      selectedNicks := new Option<string>[0];
      numNicks := 0;
      counter := 0;
    }

    /** parse_nick_list: count the slots, allocate them zeroed, then fill them. */
    method ParseNickList(s: string)
      modifies this`selectedNicks, this`numNicks
      ensures fresh(selectedNicks)
      ensures numNicks == SlotCount(s) && selectedNicks[..] == Slots(s)
    {
      var n := CountSlots(s);
      var slots := new Option<string>[n](_ => None);
      FillSlots(slots, s);
      numNicks := n;
      selectedNicks := slots;
    }

    /** The slots are those parse_nick_list fills for the list `v`. */
    ghost predicate HoldsNicks(v: string)
      reads this, selectedNicks
    {
      numNicks == SlotCount(v) && selectedNicks[..] == Slots(v)
    }

    /** The block's hook of type HOOKTYPE_CONFIGTEST: the result, *errs, and the warnings issued. */
    method ConfigTest(level: ConfigLevel, ce: ConfigEntry) returns (r: int, errs: Option<int>, warnings: seq<Warning>)
      modifies this`socketHpath, this`selectedNicks, this`numNicks
      ensures !IsOwnBlock(level, ce, blockName) ==>
        r == 0 && errs == None && warnings == [] &&
        socketHpath == old(socketHpath) && selectedNicks == old(selectedNicks) && numNicks == old(numNicks)
      ensures IsOwnBlock(level, ce, blockName) ==>
        errs == Some(TestErrors(ce.items)) && r == (if TestErrors(ce.items) > 0 then -1 else 1) &&
        warnings == TestWarnings(ce.items) &&
        socketHpath == (old(socketHpath) || exists q :: 0 <= q < |ce.items| && HasValue(ce.items[q], SocketPathItem))
      ensures IsOwnBlock(level, ce, blockName) ==>
        match LastValue(ce.items, NicksItem)
        case None => selectedNicks == old(selectedNicks) && numNicks == old(numNicks)
        case Some(v) => fresh(selectedNicks) && numNicks == SlotCount(v) && selectedNicks[..] == Slots(v)
    {
      if level != ConfigMain || ce.name != Some(blockName) {
        return 0, None, [];
      }
      var items := ce.items;
      var errors := 0;
      warnings := [];
      var i := 0;
      while i < |items|
        invariant i <= |items|
        invariant errors == TestErrors(items[..i]) && warnings == TestWarnings(items[..i])
        invariant socketHpath == (old(socketHpath) || LastValue(items[..i], SocketPathItem).Some?)
        invariant match LastValue(items[..i], NicksItem)
          case None => selectedNicks == old(selectedNicks) && numNicks == old(numNicks)
          case Some(v) => fresh(selectedNicks) && HoldsNicks(v)
      {
        var e := items[i];
        PrefixStep(items, i);
        var err, w := TestItem(e);
        errors := errors + err;
        warnings := warnings + w;
        i := i + 1;
      }
      assert items[..i] == items;
      LastValueFound(items, SocketPathItem);
      return if errors > 0 then -1 else 1, Some(errors), warnings;
    }

    /** One item of the block, as the configuration test loop handles it. */
    method TestItem(e: ConfigEntry) returns (err: nat, warns: seq<Warning>)
      modifies this`socketHpath, this`selectedNicks, this`numNicks
      ensures err == ItemErrors(e) && warns == ItemWarnings(e)
      ensures socketHpath == (old(socketHpath) || HasValue(e, SocketPathItem))
      ensures HasValue(e, NicksItem) ==> fresh(selectedNicks) && HoldsNicks(e.value.value)
      ensures !HasValue(e, NicksItem) ==> selectedNicks == old(selectedNicks) && numNicks == old(numNicks)
    {
      err, warns := 0, [];
      if e.name.None? {
        err := 1;
      } else if e.name == Some(SocketPathItem) {
        if e.value.None? {
          err := 1;
        } else {
          socketHpath := true;
        }
      } else if e.name == Some(NicksItem) {
        if e.value.None? {
          err := 1;
        } else {
          ParseNickList(e.value.value);
        }
      } else {
        warns := [UnknownItem(e.name.value)];
      }
    }

    /** The block's hook of type HOOKTYPE_CONFIGPOSTTEST: never fails, only warns. */
    method ConfigPostTest() returns (r: int, warnings: seq<Warning>)
      ensures r == 1
      ensures (NoSocketPath in warnings <==> !socketHpath) && (NoNicks in warnings <==> numNicks == 0)
      ensures |warnings| <= 2
    {
      warnings := [];
      if !socketHpath {
        warnings := warnings + [NoSocketPath];
      }
      if numNicks == 0 {
        warnings := warnings + [NoNicks];
      }
      r := 1;
    }

    /** The block's hook of type HOOKTYPE_CONFIGRUN: keeps the last socket-path value. */
    method ConfigRun(level: ConfigLevel, ce: ConfigEntry) returns (r: int)
      requires IsOwnBlock(level, ce, blockName) ==>
        forall q :: 0 <= q < |ce.items| ==> ce.items[q].value.Some? ==> ce.items[q].name.Some?
      modifies this`socketPath
      ensures !IsOwnBlock(level, ce, blockName) ==> r == 0 && socketPath == old(socketPath)
      ensures IsOwnBlock(level, ce, blockName) ==> r == 1
      ensures IsOwnBlock(level, ce, blockName) ==>
        socketPath == match LastValue(ce.items, SocketPathItem) case Some(p) => Some(p) case None => old(socketPath)
    {
      if level != ConfigMain || ce.name != Some(blockName) {
        return 0;
      }
      var items := ce.items;
      var i := 0;
      while i < |items|
        invariant i <= |items|
        invariant socketPath == match LastValue(items[..i], SocketPathItem) case Some(p) => Some(p) case None => old(socketPath)
      {
        var e := items[i];
        assert items[..i + 1][..i] == items[..i] && items[..i + 1][i] == e;
        if e.value.Some? && e.name.value == SocketPathItem {
          socketPath := e.value;
        } else if e.value.Some? && e.name.value == NicksItem {
        }
        i := i + 1;
      }
      assert items[..i] == items;
      r := 1;
    }

    /** The HOOKTYPE_PRE_CHANMSG hook: one more message overall and in the channel. */
    method Msg(ch: Channel) returns (r: int)
      requires counter < IntMax && ch.messageCount < IntMax
      modifies this`counter, ch`messageCount
      ensures counter == old(counter) + 1 && ch.messageCount == old(ch.messageCount) + 1
      ensures r == HookContinue
    {
      counter := counter + 1;
      ch.messageCount := ch.messageCount + 1;
      r := HookContinue;
    }
  }
}
