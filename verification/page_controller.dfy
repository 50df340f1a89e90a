/**
 * The item-key logic of the Upvote plugin's page controller: parsing an item
 * key "elementId[:subKey]", looking up the current user's vote for it, and
 * compiling a batch of item keys into vote records.
 *
 * The plugin singleton the controller reads (the `requireLogin` setting, the
 * logged-in and anonymous vote histories, and the tally service) is passed in
 * explicitly as an `Env` value.
 */
module PageController {
  import opened Wrappers
  import opened PhpStrings

  /**
   * What the controller reads from the plugin: the `requireLogin` setting, the
   * two vote histories (keyed by the full item key) and the tally service,
   * which is external and left uninterpreted.
   */
  datatype Env<V, T> = Env(
    requireLogin: bool,
    loggedInHistory: map<string, V>,
    anonymousHistory: map<string, V>,
    tally: (int, Option<string>) -> T)

  /** The vote data returned for one element. */
  datatype Record<V, T> = Record(
    id: int,
    key: Option<string>,
    itemKey: string,
    userVote: Option<V>,
    tally: T)

  /**
   * The sub-key kept for the text after the first colon: none when that text
   * is falsy ("" or "0"), and otherwise the text itself, unchanged.
   */
  function SubKeyOf(rest: string): (key: Option<string>)
    ensures key.None? <==> rest == "" || rest == "0"
    ensures key.Some? ==> key.value == rest && |rest| >= 1
  {
    if IsFalsy(rest) then None else Some(rest)
  }

  /**
   * The element id an item key names: the (int) cast of the text before its
   * first colon, which is the first piece `explode` gives.
   */
  function ElementIdOf(itemKey: string): (id: int)
    ensures id == IntCast(Explode(itemKey)[0])
  {
    SplitAgrees(itemKey);
    IntCast(BeforeColon(itemKey))
  }

  /**
   * `_userVote`: the current user's vote for the item, looked up under the
   * full item key in the logged-in history when login is required and in the
   * anonymous history otherwise; `None` when the key is absent.
   */
  function UserVote<V, T>(env: Env<V, T>, itemKey: string): (vote: Option<V>)
    ensures env.requireLogin ==>
      (vote.Some? <==> itemKey in env.loggedInHistory) &&
      (vote.Some? ==> vote.value == env.loggedInHistory[itemKey])
    ensures !env.requireLogin ==>
      (vote.Some? <==> itemKey in env.anonymousHistory) &&
      (vote.Some? ==> vote.value == env.anonymousHistory[itemKey])
  {
    var history := if env.requireLogin then env.loggedInHistory else env.anonymousHistory;
    if itemKey in history then Some(history[itemKey]) else None
  }

  /**
   * `_compileElement`: split the item key on ':', cast the first piece to the
   * element id, give up (`None`) when that id is 0, and otherwise re-join the
   * other pieces into the sub-key, which becomes `None` when falsy.
   */
  function CompileElement<V, T>(env: Env<V, T>, itemKey: string): (r: Option<Record<V, T>>)
    ensures r.None? <==> ElementIdOf(itemKey) == 0
    ensures r.Some? ==> r.value.id == ElementIdOf(itemKey) && r.value.id != 0
    ensures r.Some? ==> r.value.key == SubKeyOf(AfterColon(itemKey))
    ensures r.Some? ==> r.value.itemKey == itemKey
    ensures r.Some? ==> r.value.userVote == UserVote(env, itemKey)
    ensures r.Some? ==> r.value.tally == env.tally(r.value.id, r.value.key)
  {
    var parts := Explode(itemKey);
    var elementId := IntCast(parts[0]);
    if elementId == 0 then
      SplitAgrees(itemKey);
      None
    else
      var key := SubKeyOf(Implode(parts[1..]));
      SplitAgrees(itemKey);
      Some(Record(elementId, key, itemKey, UserVote(env, itemKey), env.tally(elementId, key)))
  }

  /**
   * `actionConfigure`. `ids` is `None` when the posted `ids[]` value is not an
   * array; the result is `None` (no response data) when it is not an array or
   * is empty, and otherwise holds one compiled entry per item key, in order,
   * with `None` entries for keys whose element id is 0.
   */
  method Configure<V, T>(env: Env<V, T>, ids: Option<seq<string>>)
    returns (data: Option<seq<Option<Record<V, T>>>>)
    ensures data.None? <==> ids.None? || ids.value == []
    ensures data.Some? ==> |data.value| == |ids.value|
    ensures data.Some? ==>
      forall i :: 0 <= i < |ids.value| ==> data.value[i] == CompileElement(env, ids.value[i])
  {
    if ids.None? || |ids.value| == 0 {
      return None;
    }
    var compiled: seq<Option<Record<V, T>>> := [];
    for i := 0 to |ids.value|
      invariant |compiled| == i
      invariant forall j :: 0 <= j < i ==> compiled[j] == CompileElement(env, ids.value[j])
    {
      compiled := compiled + [CompileElement(env, ids.value[i])];
    }
    return Some(compiled);
  }

  // ---------------------------------------------------------------------------
  // Properties of item-key compilation
  // ---------------------------------------------------------------------------

  /**
   * For every nonzero id `e` and every text `k`, the key "e:k" compiles to id
   * `e` with `k` kept verbatim as the sub-key, colons included, unless `k` is
   * "" or "0". Negative ids are accepted like positive ones.
   */
  lemma CompileWithSubKey<V, T>(env: Env<V, T>, e: int, k: string)
    requires e != 0
    ensures var itemKey := IntToString(e) + [Colon] + k;
      CompileElement(env, itemKey) ==
        Some(Record(e, SubKeyOf(k), itemKey, UserVote(env, itemKey), env.tally(e, SubKeyOf(k))))
  {
    var s := IntToString(e);
    SplitSegment(s, k);
    CastRoundTrip(e);
    assert ElementIdOf(s + [Colon] + k) == e;
  }

  /** For every nonzero id `e`, the key "e" with no colon compiles to id `e` and no sub-key. */
  lemma CompileWithoutSubKey<V, T>(env: Env<V, T>, e: int)
    requires e != 0
    ensures CompileElement(env, IntToString(e)) ==
      Some(Record(e, None, IntToString(e), UserVote(env, IntToString(e)), env.tally(e, None)))
  {
    var s := IntToString(e);
    assert BeforeColon(s) == s && AfterColon(s) == "";
    CastRoundTrip(e);
    assert ElementIdOf(s) == e;
  }

  /**
   * A key whose text before the first colon holds no digit, or does not start
   * (after whitespace) with a digit or a sign and a digit, compiles to nothing.
   */
  lemma NonNumericIdRejected<V, T>(env: Env<V, T>, itemKey: string)
    requires (forall i :: 0 <= i < |BeforeColon(itemKey)| ==> !IsDigit(BeforeColon(itemKey)[i]))
          || !NumeralStart(SkipSpace(BeforeColon(itemKey)))
    ensures CompileElement(env, itemKey) == None
  {
    assert IntCast(BeforeColon(itemKey)) == 0;
  }

  /**
   * A digit after a leading letter does not make an id: "x5:y" compiles to
   * nothing. The key is a parameter pinned by `requires` rather than a literal argument, so that
   * the verifier does not unfold the string functions on literals, which keeps
   * the proof within its resource budget.
   */
  lemma EmbeddedDigitRejected<V, T>(env: Env<V, T>, k: string)
    requires k == "x5:y"
    ensures CompileElement(env, k) == None
  {
    assert k == "x5" + [Colon] + "y";
    SplitSegment("x5", "y");
    CastOfNonNumeral([], "x5");
    assert [] + "x5" == "x5";
  }

  /**
   * The user's vote reads one entry only: the selected history's entry at the
   * full item key. The other history and every other key play no part.
   */
  lemma UserVoteReadsOneEntry<V, T>(env1: Env<V, T>, env2: Env<V, T>, itemKey: string)
    requires env1.requireLogin == env2.requireLogin
    requires env1.requireLogin ==>
      (itemKey in env1.loggedInHistory <==> itemKey in env2.loggedInHistory) &&
      (itemKey in env1.loggedInHistory ==> env1.loggedInHistory[itemKey] == env2.loggedInHistory[itemKey])
    requires !env1.requireLogin ==>
      (itemKey in env1.anonymousHistory <==> itemKey in env2.anonymousHistory) &&
      (itemKey in env1.anonymousHistory ==> env1.anonymousHistory[itemKey] == env2.anonymousHistory[itemKey])
    ensures UserVote(env1, itemKey) == UserVote(env2, itemKey)
  {
  }

  /**
   * The history is looked up under the item key as given, not under the parsed
   * (id, sub-key): "5" and "5:0" compile to the same id and sub-key, yet can
   * carry different votes.
   */
  lemma VoteLookupNotNormalised<V, T>(env: Env<V, T>, up: V)
    requires !env.requireLogin && env.anonymousHistory == map["5" := up]
    ensures CompileElement(env, "5").value.id == CompileElement(env, "5:0").value.id == 5
    ensures CompileElement(env, "5").value.key == CompileElement(env, "5:0").value.key == None
    ensures CompileElement(env, "5").value.userVote == Some(up)
    ensures CompileElement(env, "5:0").value.userVote == None
  {
    assert IntToString(5) == "5";
    assert "5:0" == IntToString(5) + [Colon] + "0";
    CompileWithoutSubKey(env, 5);
    CompileWithSubKey(env, 5, "0");
  }

  /** The sub-key keeps every colon after the first one. */
  lemma ColonsKeptInSubKey<V, T>(env: Env<V, T>)
    ensures CompileElement(env, "7:a:b").value.key == Some("a:b")
  {
    assert IntToString(7) == "7";
    assert "7:a:b" == IntToString(7) + [Colon] + "a:b";
    CompileWithSubKey(env, 7, "a:b");
  }

  /** An empty or "0" text after the colon leaves no sub-key. */
  lemma FalsySubKeyDropped<V, T>(env: Env<V, T>)
    ensures CompileElement(env, "7:").value.key == None
    ensures CompileElement(env, "7:0").value.key == None
  {
    assert IntToString(7) == "7";
    assert "7:" == IntToString(7) + [Colon] + "";
    assert "7:0" == IntToString(7) + [Colon] + "0";
    CompileWithSubKey(env, 7, "");
    CompileWithSubKey(env, 7, "0");
  }

  /** A negative id is accepted. */
  lemma NegativeIdAccepted<V, T>(env: Env<V, T>)
    ensures CompileElement(env, "-3:x").value.id == -3
  {
    assert IntToString(-3) == "-3";
    assert "-3:x" == IntToString(-3) + [Colon] + "x";
    CompileWithSubKey(env, -3, "x");
  }

  /** Whitespace before the id is skipped, as PHP's cast does. */
  lemma LeadingSpaceSkipped()
    ensures ElementIdOf(" 12:x") == 12
  {
    assert BeforeColon(" 12:x") == " 12" by {
      assert " 12:x" == " 12" + [Colon] + "x";
      SplitSegment(" 12", "x");
    }
    assert SkipSpace(" 12") == "12";
    assert DigitPrefix("12") == "12";
    assert DigitsValue("12") == 12;
    assert IntCast(" 12") == DigitsValue(DigitPrefix("12"));
  }

  /**
   * Zero, text and the empty key all give element id 0 and compile to nothing.
   * The keys are parameters pinned by `requires` rather than literal arguments, so that
   * the verifier does not unfold the string functions on literals, which keeps
   * the proof within its resource budget.
   */
  lemma InvalidIdsRejected<V, T>(env: Env<V, T>, zero: string, text: string, empty: string)
    requires zero == "0:x" && text == "bogus" && empty == ""
    ensures CompileElement(env, zero) == None
    ensures CompileElement(env, text) == None
    ensures CompileElement(env, empty) == None
  {
    assert CompileElement(env, zero) == None by {
      assert zero == "0" + [Colon] + "x";
      SplitSegment("0", "x");
      assert IntCast("0") == 0 by { CastOfNumeral([], [], "0", []); }
    }
    assert CompileElement(env, text) == None by {
      assert BeforeColon(text) == text;
      NonNumericIdRejected(env, text);
    }
    assert CompileElement(env, empty) == None by {
      NonNumericIdRejected(env, empty);
    }
  }

  // ---------------------------------------------------------------------------
  // Properties of batch compilation
  // ---------------------------------------------------------------------------

  /**
   * The first key of the batch scenario below: id 5, sub-key "color", and the
   * user's vote. The key is a parameter pinned by `requires` rather than a literal argument, so that
   * the verifier does not unfold the string functions on literals, which keeps
   * the proof within its resource budget.
   */
  lemma ScenarioVotedKey<V, T>(env: Env<V, T>, up: V, k: string)
    requires !env.requireLogin && env.anonymousHistory == map["5:color" := up]
    requires k == "5:color"
    ensures CompileElement(env, k) == Some(Record(5, Some("color"), k, Some(up), env.tally(5, Some("color"))))
  {
    assert IntToString(5) == "5";
    assert k == IntToString(5) + [Colon] + "color";
    CompileWithSubKey(env, 5, "color");
  }

  /**
   * The second key of the batch scenario below: id 5, no sub-key, no vote.
   * The key is a parameter pinned by `requires` rather than a literal argument, so that
   * the verifier does not unfold the string functions on literals, which keeps
   * the proof within its resource budget.
   */
  lemma ScenarioPlainKey<V, T>(env: Env<V, T>, up: V, k: string)
    requires !env.requireLogin && env.anonymousHistory == map["5:color" := up]
    requires k == "5"
    ensures CompileElement(env, k) == Some(Record(5, None, k, None, env.tally(5, None)))
  {
    assert k == IntToString(5);
    CompileWithoutSubKey(env, 5);
  }

  /**
   * The batch ["5:color", "5", "0:x", "bogus"], for an anonymous user who voted
   * `up` on "5:color", compiles to four entries: a record with the vote, a
   * record without sub-key or vote, and `None` twice, kept in place. The
   * keys are parameters pinned by `requires` rather than literal arguments, so that
   * the verifier does not unfold the string functions on literals, which keeps
   * the proof within its resource budget.
   */
  method BatchScenario<V, T>(env: Env<V, T>, up: V, ids: seq<string>)
    returns (data: Option<seq<Option<Record<V, T>>>>)
    requires !env.requireLogin && env.anonymousHistory == map["5:color" := up]
    requires ids == ["5:color", "5", "0:x", "bogus"]
    ensures data.Some? && |data.value| == 4
    ensures data.value[0] == Some(Record(5, Some("color"), "5:color", Some(up), env.tally(5, Some("color"))))
    ensures data.value[1] == Some(Record(5, None, "5", None, env.tally(5, None)))
    ensures data.value[2] == None && data.value[3] == None
  {
    data := Configure(env, Some(ids));
    ScenarioVotedKey(env, up, ids[0]);
    ScenarioPlainKey(env, up, ids[1]);
    InvalidIdsRejected(env, ids[2], ids[3], "");
  }

  /** An empty batch, and a posted value that is not an array, give no response data. */
  method NoBatchScenario<V, T>(env: Env<V, T>) returns (empty: Option<seq<Option<Record<V, T>>>>, notArray: Option<seq<Option<Record<V, T>>>>)
    ensures empty == None && notArray == None
  {
    empty := Configure(env, Some([]));
    notArray := Configure(env, None);
  }
}
