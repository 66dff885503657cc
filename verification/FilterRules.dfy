/**
 User-defined filter rules (`src/filter/rules.rs`) and the rule loop of the filter engine with
 its deterministic sampling (`src/filter/engine.rs`, `src/ingest/fingerprint.rs`).
 */
module FilterRules {
  import opened Options
  import opened Text
  import AssetVersion
  import Utf8

  datatype StorableEvent = StorableEvent(
    eventId: string, level: Option<string>, platform: Option<string>, sdkName: Option<string>,
    sdkVersion: Option<string>, title: Option<string>, transactionName: Option<string>,
    serverName: Option<string>, environment: Option<string>, release: Option<string>,
    tags: seq<(string, string)>)

  datatype FilterField =
    | Level | Platform | SdkName | SdkVersion | Title | TransactionName | ServerName | Environment | Release
    | Tag(key: string)
  {
    function Extract(e: StorableEvent): Option<string> {
      match this
      case Level => e.level
      case Platform => e.platform
      case SdkName => e.sdkName
      case SdkVersion => e.sdkVersion
      case Title => e.title
      case TransactionName => e.transactionName
      case ServerName => e.serverName
      case Environment => e.environment
      case Release => e.release
      case Tag(key) => FirstTag(e.tags, key)
    }
  }

  function FirstTag(tags: seq<(string, string)>, key: string): Option<string> {
    if tags == [] then None else if tags[0].0 == key then Some(tags[0].1) else FirstTag(tags[1..], key)
  }

  predicate EqIgnoreCase(a: string, b: string) { Lower(a) == Lower(b) }

  predicate WindowMatches(haystack: string, needle: string, i: nat) {
    i + |needle| <= |haystack| && EqIgnoreCase(haystack[i..i + |needle|], needle)
  }

  /** Some window of the haystack equals the needle; the source panics on an empty needle. */
  predicate ContainsIgnoreCase(haystack: string, needle: string)
    requires needle != ""
  {
    exists i :: 0 <= i < |haystack| && WindowMatches(haystack, needle, i)
  }

  predicate StartsIgnoreCase(s: string, prefix: string) {
    |s| >= |prefix| && EqIgnoreCase(s[..|prefix|], prefix)
  }

  /** `split(',')`, each piece trimmed, compared. */
  predicate InList(value: string, list: string)
    decreases |list|
  {
    var (piece, rest) := Piece(list, ',');
    EqIgnoreCase(value, Trim(piece)) || (rest != "" && InList(value, rest[1..]))
  }

  datatype FilterOperator = Equals | NotEquals | Contains | NotContains | StartsWith | In | NotIn {
    /** The rule value the operator can work with. */
    predicate Accepts(ruleValue: string) { Contains? || NotContains? ==> ruleValue != "" }

    predicate Matches(fieldValue: string, ruleValue: string)
      requires Accepts(ruleValue)
    {
      match this
      case Equals => EqIgnoreCase(fieldValue, ruleValue)
      case NotEquals => !EqIgnoreCase(fieldValue, ruleValue)
      case Contains => ContainsIgnoreCase(fieldValue, ruleValue)
      case NotContains => !ContainsIgnoreCase(fieldValue, ruleValue)
      case StartsWith => StartsIgnoreCase(fieldValue, ruleValue)
      case In => InList(fieldValue, ruleValue)
      case NotIn => !InList(fieldValue, ruleValue)
    }
  }

  datatype FilterAction = DropEvent | Sample

  datatype FilterRule = FilterRule(field: FilterField, operator: FilterOperator, value: string,
                                   action: FilterAction, sampleRate: Option<real>) {
    predicate Usable() { operator.Accepts(value) }

    predicate Matches(e: StorableEvent)
      requires Usable()
    {
      match field.Extract(e)
      case Some(v) => operator.Matches(v, value)
      case None => false
    }
  }

  type Rules = rs: seq<FilterRule> | forall i :: 0 <= i < |rs| ==> rs[i].Usable() witness []

  /** The hash fraction of an event id, as a real. */
  function Normalized(eventId: string): (x: real)
    ensures 0.0 <= x <= 1.0
  {
    var h := AssetVersion.Hash(Utf8.Encode(eventId), AssetVersion.OFFSET_BASIS);
    h as real / (AssetVersion.TWO_64 - 1) as real
  }

  datatype Verdict = Accept | DropByRule | DropBySample {
    predicate IsDrop() { !Accept? }
  }

  /** What one rule says of an event. */
  function Decide(rule: FilterRule, e: StorableEvent): Verdict
    requires rule.Usable()
  {
    if !rule.Matches(e) then Accept
    else match rule.action
      case DropEvent => DropByRule
      case Sample =>
        match rule.sampleRate
        case None => Accept
        case Some(rate) => if Normalized(e.eventId) > rate then DropBySample else Accept
  }

  /** Rule `i` drops the event and no rule before it does. */
  ghost predicate FirstToDrop(rules: Rules, e: StorableEvent, i: nat)
    requires i < |rules|
  {
    Decide(rules[i], e).IsDrop() && forall j :: 0 <= j < i ==> Decide(rules[j], e) == Accept
  }

  /** The loop: the first rule that drops decides. */
  method CheckRules(rules: Rules, e: StorableEvent) returns (verdict: Verdict)
    ensures verdict.IsDrop() <==> Drops(rules, e)
    ensures verdict.IsDrop() ==> exists i :: 0 <= i < |rules| && FirstToDrop(rules, e, i) && Decide(rules[i], e) == verdict
  {
    for n := 0 to |rules|
      invariant forall j :: 0 <= j < n ==> Decide(rules[j], e) == Accept
    {
      var one := Decide(rules[n], e);
      if one.IsDrop() {
        assert FirstToDrop(rules, e, n);
        return one;
      }
    }
    return Accept;
  }

  /** Some rule drops the event. */
  ghost predicate Drops(rules: Rules, e: StorableEvent) {
    exists i :: 0 <= i < |rules| && Decide(rules[i], e).IsDrop()
  }

  lemma {:induction false} DropsByMember(rules: Rules, e: StorableEvent)
    ensures Drops(rules, e) <==> exists r :: r in multiset(rules) && r.Usable() && Decide(r, e).IsDrop()
  {
    if Drops(rules, e) {
      var i :| 0 <= i < |rules| && Decide(rules[i], e).IsDrop();
      assert rules[i] in multiset(rules);
    }
  }

  /** Accept or drop does not depend on the order of the rules. */
  lemma {:induction false} OrderDoesNotMatter(rules: Rules, other: Rules, e: StorableEvent)
    requires multiset(rules) == multiset(other)
    ensures Drops(rules, e) <==> Drops(other, e)
  {
    DropsByMember(rules, e);
    DropsByMember(other, e);
  }

  /** Rules added, anywhere, never turn a drop into an accept. */
  lemma {:induction false} MoreRulesDropMore(rules: Rules, more: Rules, e: StorableEvent)
    requires multiset(rules) <= multiset(more) && Drops(rules, e)
    ensures Drops(more, e)
  {
    DropsByMember(rules, e);
    DropsByMember(more, e);
  }

  /** `other` is `rules` with some sample rates raised. */
  ghost predicate RatesRaised(rules: Rules, other: Rules) {
    |rules| == |other| && forall i :: 0 <= i < |rules| ==>
      other[i] == rules[i]
      || (rules[i].sampleRate.Some? && other[i].sampleRate.Some?
          && rules[i].sampleRate.value <= other[i].sampleRate.value
          && other[i] == rules[i].(sampleRate := other[i].sampleRate))
  }

  /** Raising sample rates never drops an event that was kept. */
  lemma {:induction false} RaisingRatesKeeps(rules: Rules, other: Rules, e: StorableEvent)
    requires RatesRaised(rules, other) && !Drops(rules, e)
    ensures !Drops(other, e)
  {
    forall i | 0 <= i < |other|
      ensures !Decide(other[i], e).IsDrop()
    {
      assert !Decide(rules[i], e).IsDrop();
    }
  }

  /** The lowest rate of the sample rules that match the event. */
  function LowestRate(rules: Rules, e: StorableEvent): Option<real> {
    if rules == [] then None
    else
      var rest := LowestRate(rules[1..], e);
      var r := rules[0];
      if r.Matches(e) && r.action == Sample && r.sampleRate.Some? then
        Some(if rest.Some? && rest.value < r.sampleRate.value then rest.value else r.sampleRate.value)
      else rest
  }

  /** A matching drop rule. */
  ghost predicate DropsOutright(rules: Rules, e: StorableEvent) {
    exists i :: 0 <= i < |rules| && rules[i].Matches(e) && rules[i].action == DropEvent
  }

  /**
   All matching sample rules together act as the one with the lowest rate: the event id is
   hashed once, so the rates do not multiply.
   */
  lemma {:induction false} SamplingIsLowestRate(rules: Rules, e: StorableEvent)
    ensures Drops(rules, e) <==>
      DropsOutright(rules, e)
      || (LowestRate(rules, e).Some? && Normalized(e.eventId) > LowestRate(rules, e).value)
  {
    if rules != [] {
      var rest: Rules := rules[1..];
      SamplingIsLowestRate(rest, e);
      DropsCons(rules, e);
    }
  }

  lemma DropsCons(rules: Rules, e: StorableEvent)
    requires rules != []
    ensures Drops(rules, e) <==> Decide(rules[0], e).IsDrop() || Drops(rules[1..], e)
    ensures DropsOutright(rules, e) <==> (rules[0].Matches(e) && rules[0].action == DropEvent) || DropsOutright(rules[1..], e)
  {
    var rest := rules[1..];
    assert forall i :: 0 <= i < |rest| ==> rest[i] == rules[i + 1];
    assert forall i :: 1 <= i < |rules| ==> rules[i] == rest[i - 1];
  }

  /** A sample rate of 1 keeps everything. */
  lemma {:induction false} FullRateKeepsAll(rules: Rules, e: StorableEvent)
    requires forall i :: 0 <= i < |rules| ==>
      rules[i].action == Sample && (rules[i].sampleRate.Some? ==> rules[i].sampleRate.value >= 1.0)
    ensures !Drops(rules, e)
  {
    assert Normalized(e.eventId) <= 1.0;
  }

  // ---- What a rule says, in characters and fields ------------------------------------------

  /** The operators other than the lists, on the characters of the two texts. */
  lemma OperatorsExactly(v: string, value: string)
    ensures FilterOperator.Equals.Matches(v, value) <==> SameText(v, value)
    ensures FilterOperator.NotEquals.Matches(v, value) <==> !SameText(v, value)
    ensures FilterOperator.StartsWith.Matches(v, value) <==> |value| <= |v| && SameText(v[..|value|], value)
    ensures value != "" ==> (FilterOperator.Contains.Matches(v, value) <==> exists i :: Within(v, value, i))
    ensures value != "" ==> (FilterOperator.NotContains.Matches(v, value) <==> forall i :: !Within(v, value, i))
  {
    hide Lower, SameText;
    LowerForgetsCase(v, value);
    if |value| <= |v| {
      LowerForgetsCase(v[..|value|], value);
    }
    forall i: nat
      ensures WindowMatches(v, value, i) <==> Within(v, value, i)
    {
      if i + |value| <= |v| {
        LowerForgetsCase(v[i..i + |value|], value);
      }
    }
  }

  /** The needle stands at position `i`, up to the case of ASCII letters. */
  predicate Within(haystack: string, needle: string, i: nat) {
    i + |needle| <= |haystack| && SameText(haystack[i..i + |needle|], needle)
  }

  /** `piece` is the piece of a comma-separated list that starts at `from`. */
  predicate IsPiece(list: string, from: nat, piece: string) {
    && from + |piece| <= |list| && list[from..from + |piece|] == piece && ',' !in piece
    && (from == 0 || list[from - 1] == ',')
    && (from + |piece| == |list| || list[from + |piece|] == ',')
  }

  /** `core` is `s` without the white space around it. */
  ghost predicate TrimsTo(s: string, core: string) {
    && (core == "" || (!IsWhitespace(core[0]) && !IsWhitespace(core[|core| - 1])))
    && exists from, to :: IsCore(s, from, to, core)
  }

  predicate IsCore(s: string, from: nat, to: nat, core: string) {
    && from <= to <= |s| && s[from..to] == core
    && (forall i :: 0 <= i < from ==> IsWhitespace(s[i])) && (forall i :: to <= i < |s| ==> IsWhitespace(s[i]))
  }

  lemma {:induction false} TrimStartExactly(s: string) returns (from: nat)
    ensures from <= |s| && TrimStart(s) == s[from..] && forall i :: 0 <= i < from ==> IsWhitespace(s[i])
    ensures TrimStart(s) == "" || !IsWhitespace(TrimStart(s)[0])
  {
    hide IsWhitespace;
    if s != "" && IsWhitespace(s[0]) {
      from := TrimStartExactly(s[1..]);
      from := from + 1;
    } else {
      from := 0;
    }
  }

  lemma {:induction false} TrimEndExactly(s: string) returns (to: nat)
    ensures to <= |s| && TrimEnd(s) == s[..to] && forall i :: to <= i < |s| ==> IsWhitespace(s[i])
    ensures TrimEnd(s) == "" || !IsWhitespace(TrimEnd(s)[|TrimEnd(s)| - 1])
  {
    hide IsWhitespace;
    if s != "" && IsWhitespace(s[|s| - 1]) {
      to := TrimEndExactly(s[..|s| - 1]);
    } else {
      to := |s|;
    }
  }

  /** There is exactly one way to trim. */
  lemma TrimExactly(s: string, core: string)
    ensures Trim(s) == core <==> TrimsTo(s, core)
  {
    hide IsWhitespace;
    var from := TrimStartExactly(s);
    var to := TrimEndExactly(TrimStart(s));
    assert s[from..][..to] == s[from..from + to];
    forall i | from + to <= i < |s|
      ensures IsWhitespace(s[i])
    {
      assert s[i] == s[from..][i - from];
    }
    assert IsCore(s, from, from + to, Trim(s));
    if TrimsTo(s, core) {
      var f, t :| IsCore(s, f, t, core);
      SameCore(s, from, from + to, Trim(s), f, t, core);
    }
  }

  lemma SameCore(s: string, f: nat, t: nat, a: string, g: nat, u: nat, b: string)
    requires IsCore(s, f, t, a) && IsCore(s, g, u, b)
    requires a == "" || (!IsWhitespace(a[0]) && !IsWhitespace(a[|a| - 1]))
    requires b == "" || (!IsWhitespace(b[0]) && !IsWhitespace(b[|b| - 1]))
    ensures a == b
  {
    hide IsWhitespace, IsCore;
    CoreCovers(s, f, t, a, g, u, b);
    CoreCovers(s, g, u, b, f, t, a);
    CoreText(s, f, t, a);
    CoreText(s, g, u, b);
  }

  lemma CoreText(s: string, f: nat, t: nat, a: string)
    requires IsCore(s, f, t, a)
    ensures f <= t <= |s| && a == s[f..t]
  {
  }

  /** A core with proper ends lies inside every other. */
  lemma CoreCovers(s: string, f: nat, t: nat, a: string, g: nat, u: nat, b: string)
    requires IsCore(s, f, t, a) && IsCore(s, g, u, b)
    requires a != "" ==> !IsWhitespace(a[0]) && !IsWhitespace(a[|a| - 1])
    ensures a != "" ==> g <= f && t <= u
  {
    hide IsWhitespace;
    if a != "" {
      assert s[f] == a[0] && s[t - 1] == a[|a| - 1];
    }
  }

  /** A list operator compares with each comma-separated piece, trimmed. */
  lemma {:induction false} InExactly(v: string, list: string)
    ensures FilterOperator.In.Matches(v, list) <==>
      exists from: nat, piece, core :: IsPiece(list, from, piece) && TrimsTo(piece, core) && SameText(v, core)
    ensures FilterOperator.NotIn.Matches(v, list) <==> !FilterOperator.In.Matches(v, list)
  {
    hide TrimsTo, SameText, InList, IsPiece, Lower, Trim;
    InSomePiece(v, list);
    if InList(v, list) {
      var from: nat, piece :| IsPiece(list, from, piece) && EqIgnoreCase(v, Trim(piece));
      TrimExactly(piece, Trim(piece));
      LowerForgetsCase(v, Trim(piece));
    }
    if from: nat, piece, core :| IsPiece(list, from, piece) && TrimsTo(piece, core) && SameText(v, core) {
      TrimExactly(piece, core);
      LowerForgetsCase(v, core);
    }
  }

  lemma {:induction false} InSomePiece(v: string, list: string)
    ensures InList(v, list) <==> exists from: nat, piece :: IsPiece(list, from, piece) && EqIgnoreCase(v, Trim(piece))
    decreases |list|
  {
    hide EqIgnoreCase, Trim, IsPiece;
    var (head, rest) := Piece(list, ',');
    FirstPiece(list);
    if rest != "" {
      var tail := rest[1..];
      InSomePiece(v, tail);
      if from: nat, piece :| IsPiece(tail, from, piece) && EqIgnoreCase(v, Trim(piece)) {
        LaterPiece(list, from, piece);
      }
    }
    if from: nat, piece :| IsPiece(list, from, piece) && EqIgnoreCase(v, Trim(piece)) {
      FirstOrLater(list, from, piece);
    }
  }

  lemma FirstPiece(list: string)
    ensures IsPiece(list, 0, Piece(list, ',').0)
  {
    var (head, rest) := Piece(list, ',');
    assert list[..|head|] == head && list[|head|..] == rest;
  }

  /** A piece of the text behind the first comma is a piece of the text. */
  lemma LaterPiece(list: string, from: nat, piece: string)
    requires Piece(list, ',').1 != "" && IsPiece(Piece(list, ',').1[1..], from, piece)
    ensures IsPiece(list, |Piece(list, ',').0| + 1 + from, piece)
  {
    hide Piece, IsPiece;
    var (head, rest) := Piece(list, ',');
    assert list[|head|] == rest[0] && list[|head| + 1..] == rest[1..];
    ShiftedPiece(list, |head| + 1, from, piece);
  }

  lemma ShiftedPiece(list: string, n: nat, from: nat, piece: string)
    requires 1 <= n <= |list| && list[n - 1] == ',' && IsPiece(list[n..], from, piece)
    ensures IsPiece(list, n + from, piece)
  {
    assert list[n + from..n + from + |piece|] == list[n..][from..from + |piece|];
  }

  /** Every piece is the first, or one behind the first comma. */
  lemma FirstOrLater(list: string, from: nat, piece: string)
    requires IsPiece(list, from, piece)
    ensures var (head, rest) := Piece(list, ',');
            piece == head || (rest != "" && exists from': nat :: IsPiece(rest[1..], from', piece))
  {
    hide Piece;
    var (head, rest) := Piece(list, ',');
    var n := |head|;
    assert list[..n] == head && list[n..] == rest;
    if from == 0 {
      SameFirst(list, piece);
    } else {
      assert list[from - 1] == ',';
      assert forall i :: 0 <= i < n ==> list[i] == head[i];
      var tail, at := rest[1..], from - 1 - n;
      assert tail == list[n + 1..];
      assert tail[at..at + |piece|] == list[from..from + |piece|];
      assert at > 0 ==> tail[at - 1] == list[from - 1];
      assert IsPiece(tail, at, piece);
    }
  }

  lemma SameFirst(list: string, piece: string)
    requires IsPiece(list, 0, piece)
    ensures piece == Piece(list, ',').0
  {
    var (head, rest) := Piece(list, ',');
    assert list[..|head|] == head && list[|head|..] == rest;
    assert forall i :: 0 <= i < |head| ==> list[i] == head[i];
    assert forall i :: 0 <= i < |piece| ==> list[i] == piece[i];
    assert rest != "" ==> list[|head|] == rest[0];
    assert |piece| == |head|;
  }

  /**
   Each field reads its own attribute of the event and no other; a tag field reads the first
   tag of its key.
   */
  lemma FieldsReadTheirOwn(f: FilterField, e: StorableEvent, v: Option<string>)
    ensures f.Extract(e.(level := v)) == if f == Level then v else f.Extract(e)
    ensures f.Extract(e.(platform := v)) == if f == Platform then v else f.Extract(e)
    ensures f.Extract(e.(sdkName := v)) == if f == SdkName then v else f.Extract(e)
    ensures f.Extract(e.(sdkVersion := v)) == if f == SdkVersion then v else f.Extract(e)
    ensures f.Extract(e.(title := v)) == if f == Title then v else f.Extract(e)
    ensures f.Extract(e.(transactionName := v)) == if f == TransactionName then v else f.Extract(e)
    ensures f.Extract(e.(serverName := v)) == if f == ServerName then v else f.Extract(e)
    ensures f.Extract(e.(environment := v)) == if f == Environment then v else f.Extract(e)
    ensures f.Extract(e.(release := v)) == if f == Release then v else f.Extract(e)
    ensures f.Tag? ==>
      match f.Extract(e)
      case Some(x) => exists i :: 0 <= i < |e.tags| && e.tags[i] == (f.key, x) && forall j :: 0 <= j < i ==> e.tags[j].0 != f.key
      case None => forall j :: 0 <= j < |e.tags| ==> e.tags[j].0 != f.key
  {
    if f.Tag? {
      FirstTagExactly(e.tags, f.key);
    }
  }

  lemma {:induction false} FirstTagExactly(tags: seq<(string, string)>, key: string)
    ensures match FirstTag(tags, key)
            case Some(x) => exists i :: 0 <= i < |tags| && tags[i] == (key, x) && forall j :: 0 <= j < i ==> tags[j].0 != key
            case None => forall j :: 0 <= j < |tags| ==> tags[j].0 != key
  {
    if tags != [] && tags[0].0 != key {
      FirstTagExactly(tags[1..], key);
      match FirstTag(tags[1..], key)
      case None =>
      case Some(x) =>
        var i :| 0 <= i < |tags[1..]| && tags[1..][i] == (key, x) && forall j :: 0 <= j < i ==> tags[1..][j].0 != key;
        assert tags[i + 1] == (key, x);
        forall j | 0 <= j < i + 1
          ensures tags[j].0 != key
        {
          if j > 0 {
            assert tags[j] == tags[1..][j - 1];
          }
        }
    } else if tags != [] {
      assert tags[0] == (key, tags[0].1);
    }
  }

  /**
   What one rule decides: nothing unless the event has the field and its value fits; a drop
   rule then drops, and a sample rule with a rate drops exactly the event ids whose 64-bit hash
   exceeds that share of the largest one.
   */
  lemma DecidesExactly(rule: FilterRule, e: StorableEvent)
    requires rule.Usable()
    ensures var fits := rule.field.Extract(e).Some? && rule.operator.Matches(rule.field.Extract(e).value, rule.value);
            var hash := AssetVersion.Hash(Utf8.Encode(e.eventId), 0xcbf2_9ce4_8422_2325);
            match Decide(rule, e)
            case DropByRule => fits && rule.action == DropEvent
            case DropBySample =>
              && fits && rule.action == Sample && rule.sampleRate.Some?
              && hash as real > rule.sampleRate.value * 18446744073709551615.0
            case Accept =>
              fits ==> rule.action == Sample
                       && (rule.sampleRate.Some? ==> hash as real <= rule.sampleRate.value * 18446744073709551615.0)
  {
    hide AssetVersion.Hash, Utf8.Encode, FilterField.Extract, FilterOperator.Matches;
    if rule.sampleRate.Some? {
      Share(AssetVersion.Hash(Utf8.Encode(e.eventId), 0xcbf2_9ce4_8422_2325) as real, rule.sampleRate.value);
    }
  }

  lemma Share(hash: real, rate: real)
    ensures hash / 18446744073709551615.0 > rate <==> hash > rate * 18446744073709551615.0
  {
  }
}
