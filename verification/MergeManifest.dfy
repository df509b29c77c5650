/**
 The merge of the manifest contributions of all modules into the template's defaults, key by key according to the
 key's strategy.
 */
module MergeManifest {
  import opened Wrappers
  import opened Order
  import opened Text
  import opened Catalog

  datatype Strategy = SetOnce | SetIfUnset | AppendCsv

  datatype KeyRule = KeyRule(strategy: Strategy, templateOnly: bool)

  function Rules(): map<string, KeyRule> {
    map[
      "title" := KeyRule(SetOnce, false),
      "subtitle" := KeyRule(SetOnce, false),
      "splash_color" := KeyRule(SetOnce, false),
      "splash_min_time" := KeyRule(SetOnce, false),
      "ui_resolutions" := KeyRule(SetOnce, false),
      "major_version" := KeyRule(SetOnce, true),
      "minor_version" := KeyRule(SetOnce, true),
      "build_version" := KeyRule(SetOnce, true),
      "mm_icon_focus_hd" := KeyRule(SetIfUnset, false),
      "mm_icon_focus_fhd" := KeyRule(SetIfUnset, false),
      "splash_screen_hd" := KeyRule(SetIfUnset, false),
      "splash_screen_fhd" := KeyRule(SetIfUnset, false),
      "splash_screen_uhd" := KeyRule(SetIfUnset, false),
      "splash_screen_shd" := KeyRule(SetIfUnset, false),
      "mm_icon_side_hd" := KeyRule(SetIfUnset, false),
      "mm_icon_side_fhd" := KeyRule(SetIfUnset, false),
      "requires_billing" := KeyRule(SetIfUnset, false),
      "bs_const" := KeyRule(AppendCsv, false),
      "supports_input_launch" := KeyRule(AppendCsv, false)
    ]
  }

  function GetStrategy(key: string): Option<KeyRule> { if key in Rules() then Some(Rules()[key]) else None }

  predicate IsCsv(key: string) { GetStrategy(key).Some? && GetStrategy(key).value.strategy == AppendCsv }

  /** A module may contribute only keys that are known and not reserved for the template. */
  predicate MayContribute(key: string) { GetStrategy(key).Some? && !GetStrategy(key).value.templateOnly }

  /** The keys that modules may contribute, those that only the template may set, and those that hold lists. */
  lemma RulesAre(key: string)
    ensures MayContribute(key) <==> key in {
      "title", "subtitle", "splash_color", "splash_min_time", "ui_resolutions", "mm_icon_focus_hd", "mm_icon_focus_fhd",
      "splash_screen_hd", "splash_screen_fhd", "splash_screen_uhd", "splash_screen_shd", "mm_icon_side_hd",
      "mm_icon_side_fhd", "requires_billing", "bs_const", "supports_input_launch"}
    ensures GetStrategy(key).Some? && !MayContribute(key)
       <==> key in {"major_version", "minor_version", "build_version"}
    ensures IsCsv(key) <==> key in {"bs_const", "supports_input_launch"}
  {
  }

  // ---------------------------------------------------------------- comma-separated values

  /** The trimmed, non-empty parts of a comma-separated value. */
  function TokensOf(parts: seq<string>): set<string> { set p | p in parts && Trim(p) != "" :: Trim(p) }

  function Tokens(value: string): set<string> { TokensOf(Split(value, ',')) }

  function PrintTokens(tokens: set<string>): string { Join(Ordered(tokens), ",") }

  predicate IsToken(t: string) { t != "" && Trimmed(t) && ',' !in t }

  lemma TokensAreTokens(value: string)
    ensures forall t :: t in Tokens(value) ==> IsToken(t)
  {
    forall t | t in Tokens(value) ensures IsToken(t) {
      var p :| p in Split(value, ',') && Trim(p) == t;
    }
  }

  /** Reading a printed set of tokens gives the set back. */
  lemma TokensRoundTrip(tokens: set<string>)
    requires forall t :: t in tokens ==> IsToken(t)
    ensures Tokens(PrintTokens(tokens)) == tokens
  {
    var parts := Ordered(tokens);
    assert forall p :: p in parts <==> p in ToSet(parts);
    if parts == [] {
      assert Split("", ',') == [""];
      assert tokens == {};
    } else {
      SplitJoin(parts, ',');
      assert forall p :: p in parts ==> Trim(p) == p && p != "";
    }
  }

  function MergeCsv(existing: Option<string>, next: string): string {
    PrintTokens((if existing.Some? then Tokens(existing.value) else {}) + Tokens(next))
  }

  method AddTokens(tokens: set<string>, value: string) returns (all: set<string>)
    ensures all == tokens + Tokens(value)
  {
    var parts := Split(value, ',');
    all := tokens;
    var i := 0;
    while i < |parts|
      invariant 0 <= i <= |parts|
      invariant all == tokens + TokensOf(parts[..i])
    {
      var t := Trim(parts[i]);
      assert forall p :: p in parts[..i + 1] <==> p in parts[..i] || p == parts[i];
      if t != "" { all := all + {t}; }
      i := i + 1;
    }
    assert parts[..i] == parts;
  }

  lemma NoTokens()
    ensures Tokens("") == {}
  {
    assert Split("", ',') == [""];
  }

  method MergeAppendCsv(existing: Option<string>, next: string) returns (merged: string)
    ensures merged == MergeCsv(existing, next)
  {
    hide Tokens, Ordered;
    var tokens: set<string> := {};
    NoTokens();
    if existing.Some? && existing.value != "" { tokens := AddTokens(tokens, existing.value); }
    assert tokens == if existing.Some? then Tokens(existing.value) else {};
    tokens := AddTokens(tokens, next);
    merged := Join(Ordered(tokens), ",");
  }

  // ---------------------------------------------------------------- the merge, contribution by contribution

  type Manifest = map<string, string>
  type Contribution = (string, string)

  datatype MergeError = UnknownKey(key: string) | TemplateOnly(key: string) | Conflict(key: string)

  datatype MergeResult = Merged(manifest: Manifest) | Failed(error: MergeError)

  function Lookup(m: Manifest, k: string): Option<string> { if k in m then Some(m[k]) else None }

  function Contribute(out: Manifest, c: Contribution): MergeResult {
    var (k, v) := c;
    match GetStrategy(k)
    case None => Failed(UnknownKey(k))
    case Some(rule) =>
      if rule.templateOnly then Failed(TemplateOnly(k))
      else
        var existing := Lookup(out, k);
        match rule.strategy
        case AppendCsv => Merged(out[k := MergeCsv(existing, v)])
        case SetOnce => if existing.Some? && existing.value != v then Failed(Conflict(k)) else Merged(out[k := v])
        case SetIfUnset =>
          if existing.Some? && existing.value != v then Failed(Conflict(k))
          else if existing.None? then Merged(out[k := v])
          else Merged(out)
  }

  function Merge(defaults: Manifest, cs: seq<Contribution>): MergeResult {
    if cs == [] then Merged(defaults)
    else
      match Merge(defaults, cs[..|cs| - 1])
      case Failed(e) => Failed(e)
      case Merged(out) => Contribute(out, cs[|cs| - 1])
  }

  /** All contributions, module by module. */
  function Contributions(ms: seq<Module>): seq<Contribution> {
    if ms == [] then [] else Contributions(ms[..|ms| - 1]) + ms[|ms| - 1].manifest
  }

  /** The nested loops over modules and their entries, which stop at the first failure. */
  method MergeManifest(defaults: Manifest, ms: seq<Module>) returns (r: MergeResult)
    ensures r == Merge(defaults, Contributions(ms))
  {
    hide GetStrategy, Contribute;
    var out := defaults;
    var i := 0;
    while i < |ms|
      invariant 0 <= i <= |ms|
      invariant Merge(defaults, Contributions(ms[..i])) == Merged(out)
    {
      var entries := ms[i].manifest;
      ghost var before := Contributions(ms[..i]);
      ContributionsSnoc(ms, i);
      var j := 0;
      assert before + entries[..0] == before;
      while j < |entries|
        invariant 0 <= j <= |entries|
        invariant Merge(defaults, before + entries[..j]) == Merged(out)
      {
        MergeSnoc(defaults, before, entries, j);
        match Contribute(out, entries[j]) {
          case Merged(next) => out := next;
          case Failed(e) =>
            FailureStays(defaults, before + entries[..j + 1], entries[j + 1..]);
            assert (before + entries[..j + 1]) + entries[j + 1..] == before + entries;
            FailureStaysInRest(defaults, ms, i + 1, e);
            return Failed(e);
        }
        j := j + 1;
      }
      assert entries[..j] == entries;
      i := i + 1;
    }
    assert ms[..i] == ms;
    r := Merged(out);
  }

  lemma ContributionsSnoc(ms: seq<Module>, i: nat)
    requires i < |ms|
    ensures Contributions(ms[..i + 1]) == Contributions(ms[..i]) + ms[i].manifest
  {
    var upTo := ms[..i + 1];
    assert upTo[..|upTo| - 1] == ms[..i] && upTo[|upTo| - 1] == ms[i];
  }

  lemma MergeSnoc(defaults: Manifest, before: seq<Contribution>, entries: seq<Contribution>, j: nat)
    requires j < |entries|
    ensures Merge(defaults, before + entries[..j + 1])
         == match Merge(defaults, before + entries[..j])
            case Failed(e) => Failed(e)
            case Merged(out) => Contribute(out, entries[j])
  {
    var cs := before + entries[..j + 1];
    assert cs[..|cs| - 1] == before + entries[..j] && cs[|cs| - 1] == entries[j];
  }

  /** Once the merge has failed, later contributions do not change the failure. */
  lemma {:induction false} FailureStays(defaults: Manifest, cs: seq<Contribution>, more: seq<Contribution>)
    requires Merge(defaults, cs).Failed?
    ensures Merge(defaults, cs + more) == Merge(defaults, cs)
    decreases |more|
  {
    if more == [] {
      assert cs + more == cs;
    } else {
      var all := cs + more;
      assert all[..|all| - 1] == cs + more[..|more| - 1];
      FailureStays(defaults, cs, more[..|more| - 1]);
    }
  }

  lemma {:induction false} FailureStaysInRest(defaults: Manifest, ms: seq<Module>, i: nat, e: MergeError)
    requires i <= |ms| && Merge(defaults, Contributions(ms[..i])) == Failed(e)
    ensures Merge(defaults, Contributions(ms)) == Failed(e)
    decreases |ms| - i
  {
    if i == |ms| {
      assert ms[..i] == ms;
    } else {
      ContributionsSnoc(ms, i);
      FailureStays(defaults, Contributions(ms[..i]), ms[i].manifest);
      FailureStaysInRest(defaults, ms, i + 1, e);
    }
  }

  // ---------------------------------------------------------------- what the merge means

  /**
   Every key contributed is known and open to modules, and all contributions to a key that is not comma-separated
   agree with each other and with the template.
   */
  ghost predicate Accepts(defaults: Manifest, C: set<Contribution>) {
    forall c :: c in C ==>
      && MayContribute(c.0)
      && (!IsCsv(c.0) ==>
           && (c.0 in defaults ==> defaults[c.0] == c.1)
           && forall d :: d in C && d.0 == c.0 ==> d.1 == c.1)
  }

  function ContributedKeys(C: set<Contribution>): set<string> { set c | c in C :: c.0 }

  /** The tokens of the template's value, if any, and of every contribution to the key. */
  function AllTokens(defaults: Manifest, C: set<Contribution>, k: string): set<string> {
    (if k in defaults then Tokens(defaults[k]) else {}) + set c, t | c in C && c.0 == k && t in Tokens(c.1) :: t
  }

  ghost predicate IsMerge(defaults: Manifest, C: set<Contribution>, out: Manifest) {
    && out.Keys == defaults.Keys + ContributedKeys(C)
    && (forall k :: k in out && k !in ContributedKeys(C) ==> out[k] == defaults[k])
    && (forall c :: c in C ==>
         c.0 in out && out[c.0] == if IsCsv(c.0) then PrintTokens(AllTokens(defaults, C, c.0)) else c.1)
  }

  lemma IsMergeUnique(defaults: Manifest, C: set<Contribution>, a: Manifest, b: Manifest)
    requires IsMerge(defaults, C, a) && IsMerge(defaults, C, b)
    ensures a == b
  {
    forall k | k in a ensures a[k] == b[k] {
      if k in ContributedKeys(C) {
        var c :| c in C && c.0 == k;
      }
    }
  }

  lemma ToSetSnoc(cs: seq<Contribution>)
    requires cs != []
    ensures ToSet(cs) == ToSet(cs[..|cs| - 1]) + {cs[|cs| - 1]}
  {
    assert cs == cs[..|cs| - 1] + [cs[|cs| - 1]];
  }

  lemma KeysGrow(C: set<Contribution>, c: Contribution)
    ensures ContributedKeys(C + {c}) == ContributedKeys(C) + {c.0}
  {
  }

  lemma AllTokensGrow(defaults: Manifest, C: set<Contribution>, c: Contribution, k: string)
    ensures AllTokens(defaults, C + {c}, k) == AllTokens(defaults, C, k) + if c.0 == k then Tokens(c.1) else {}
  {
  }

  lemma AllTokensAreTokens(defaults: Manifest, C: set<Contribution>, k: string)
    ensures forall t :: t in AllTokens(defaults, C, k) ==> IsToken(t)
  {
    if k in defaults { TokensAreTokens(defaults[k]); }
    forall c | c in C ensures forall t :: t in Tokens(c.1) ==> IsToken(t) { TokensAreTokens(c.1); }
  }

  /** The tokens already in the manifest under a csv key are those of the template and of the contributions so far. */
  lemma ExistingTokens(defaults: Manifest, C: set<Contribution>, out: Manifest, k: string)
    requires IsMerge(defaults, C, out) && IsCsv(k)
    ensures (if k in out then Tokens(out[k]) else {}) == AllTokens(defaults, C, k)
  {
    hide IsCsv, Tokens, PrintTokens, AllTokens;
    if k in ContributedKeys(C) {
      var c :| c in C && c.0 == k;
      AllTokensAreTokens(defaults, C, k);
      TokensRoundTrip(AllTokens(defaults, C, k));
    } else {
      NoContribution(defaults, C, k);
    }
  }

  lemma NoContribution(defaults: Manifest, C: set<Contribution>, k: string)
    requires k !in ContributedKeys(C)
    ensures AllTokens(defaults, C, k) == if k in defaults then Tokens(defaults[k]) else {}
  {
    assert forall c :: c in C ==> c.0 in ContributedKeys(C);
  }

  /** One more contribution is accepted, and merged, exactly when the specification says so. */
  lemma ContributeStep(defaults: Manifest, C: set<Contribution>, out: Manifest, c: Contribution)
    requires Accepts(defaults, C) && IsMerge(defaults, C, out)
    ensures Contribute(out, c).Merged? <==> Accepts(defaults, C + {c})
    ensures Contribute(out, c).Merged? ==> IsMerge(defaults, C + {c}, Contribute(out, c).manifest)
  {
    hide Tokens, PrintTokens, AllTokens, Rules, MergeCsv, ContributedKeys;
    KeysGrow(C, c);
    if IsCsv(c.0) {
      CsvStep(defaults, C, out, c);
    } else {
      PlainStep(defaults, C, out, c);
    }
  }

  /** What an accepted contribution to a comma-separated key does to the manifest. */
  lemma CsvEffect(out: Manifest, c: Contribution)
    requires IsCsv(c.0)
    ensures Contribute(out, c).Merged? <==> MayContribute(c.0)
    ensures Contribute(out, c).Merged? ==>
      Contribute(out, c).manifest
      == out[c.0 := PrintTokens((if c.0 in out then Tokens(out[c.0]) else {}) + Tokens(c.1))]
  {
    hide Rules, Tokens, PrintTokens;
  }

  lemma CsvStep(defaults: Manifest, C: set<Contribution>, out: Manifest, c: Contribution)
    requires Accepts(defaults, C) && IsMerge(defaults, C, out) && IsCsv(c.0)
    ensures Contribute(out, c).Merged? <==> Accepts(defaults, C + {c})
    ensures Contribute(out, c).Merged? ==> IsMerge(defaults, C + {c}, Contribute(out, c).manifest)
  {
    hide Tokens, PrintTokens, AllTokens, GetStrategy, Contribute, ContributedKeys, IsCsv, MayContribute;
    CsvEffect(out, c);
    KeysGrow(C, c);
    ExistingTokens(defaults, C, out, c.0);
    forall d | d in C + {c}
      ensures AllTokens(defaults, C + {c}, d.0)
           == if c.0 == d.0 then AllTokens(defaults, C, d.0) + Tokens(c.1) else AllTokens(defaults, C, d.0)
    {
      AllTokensGrow(defaults, C, c, d.0);
    }
  }

  /** What an accepted contribution to a plain key does to the manifest. */
  lemma PlainEffect(out: Manifest, c: Contribution)
    requires !IsCsv(c.0)
    ensures Contribute(out, c).Merged? <==> MayContribute(c.0) && (c.0 in out ==> out[c.0] == c.1)
    ensures Contribute(out, c).Merged? ==> Contribute(out, c).manifest == out[c.0 := c.1]
  {
    hide Rules;
  }

  lemma PlainStep(defaults: Manifest, C: set<Contribution>, out: Manifest, c: Contribution)
    requires Accepts(defaults, C) && IsMerge(defaults, C, out) && !IsCsv(c.0)
    ensures Contribute(out, c).Merged? <==> Accepts(defaults, C + {c})
    ensures Contribute(out, c).Merged? ==> IsMerge(defaults, C + {c}, Contribute(out, c).manifest)
  {
    hide Tokens, PrintTokens, AllTokens, GetStrategy, Contribute, ContributedKeys, IsCsv, MayContribute;
    PlainEffect(out, c);
    KeysGrow(C, c);
    KeyMember(C, c.0);
    forall d | d in C && IsCsv(d.0) ensures AllTokens(defaults, C + {c}, d.0) == AllTokens(defaults, C, d.0) {
      AllTokensGrow(defaults, C, c, d.0);
    }
  }

  lemma KeyMember(C: set<Contribution>, k: string)
    ensures k in ContributedKeys(C) <==> exists d :: d in C && d.0 == k
  {
  }

  /** The merge succeeds exactly on what the specification accepts, and yields the one manifest it describes. */
  lemma {:induction false} MergeSpecification(defaults: Manifest, cs: seq<Contribution>)
    ensures Merge(defaults, cs).Merged? <==> Accepts(defaults, ToSet(cs))
    ensures Merge(defaults, cs).Merged? ==> IsMerge(defaults, ToSet(cs), Merge(defaults, cs).manifest)
    decreases |cs|
  {
    hide Accepts, IsMerge, Contribute;
    if cs == [] {
      NoContributions(defaults);
    } else {
      var front, last := cs[..|cs| - 1], cs[|cs| - 1];
      MergeSpecification(defaults, front);
      ToSetSnoc(cs);
      match Merge(defaults, front)
      case Merged(out) => ContributeStep(defaults, ToSet(front), out, last);
      case Failed(_) => AcceptsFewer(defaults, ToSet(front), last);
    }
  }

  /** Why a contribution is not accepted after others that were. */
  ghost predicate Offends(defaults: Manifest, before: set<Contribution>, c: Contribution, e: MergeError) {
    match e
    case UnknownKey(k) => k == c.0 && !MayContribute(k) && k !in {"major_version", "minor_version", "build_version"}
    case TemplateOnly(k) => k == c.0 && k in {"major_version", "minor_version", "build_version"}
    case Conflict(k) =>
      && k == c.0 && MayContribute(k) && !IsCsv(k)
      && ((k in defaults && defaults[k] != c.1) || exists d :: d in before && d.0 == k && d.1 != c.1)
  }

  /** All before the contribution at `i` are accepted together, and it offends. */
  ghost predicate FirstOffence(defaults: Manifest, cs: seq<Contribution>, i: nat, e: MergeError) {
    i < |cs| && Accepts(defaults, ToSet(cs[..i])) && Offends(defaults, ToSet(cs[..i]), cs[i], e)
  }

  lemma OffenceOf(defaults: Manifest, C: set<Contribution>, out: Manifest, c: Contribution)
    requires Accepts(defaults, C) && IsMerge(defaults, C, out) && Contribute(out, c).Failed?
    ensures Offends(defaults, C, c, Contribute(out, c).error)
  {
    hide Rules, Tokens, PrintTokens, AllTokens, MergeCsv;
    RulesAre(c.0);
    KeyMember(C, c.0);
  }

  /** A merge that fails reports the offence of the first contribution that is not accepted. */
  lemma {:induction false} FailureIsFirstOffence(defaults: Manifest, cs: seq<Contribution>) returns (i: nat)
    requires Merge(defaults, cs).Failed?
    ensures FirstOffence(defaults, cs, i, Merge(defaults, cs).error)
    decreases |cs|
  {
    hide Accepts, Offends, IsMerge, Contribute;
    var front := cs[..|cs| - 1];
    match Merge(defaults, front)
    case Failed(e) =>
      i := FailureIsFirstOffence(defaults, front);
      assert cs[..i] == front[..i] && cs[i] == front[i];
    case Merged(out) =>
      i := |cs| - 1;
      MergeSpecification(defaults, front);
      OffenceOf(defaults, ToSet(front), out, cs[i]);
  }

  lemma NoContributions(defaults: Manifest)
    ensures Accepts(defaults, ToSet([])) && IsMerge(defaults, ToSet([]), defaults)
  {
    assert ContributedKeys(ToSet([])) == {};
  }

  lemma AcceptsFewer(defaults: Manifest, C: set<Contribution>, c: Contribution)
    ensures Accepts(defaults, C + {c}) ==> Accepts(defaults, C)
  {
    assert forall d :: d in C ==> d in C + {c};
  }
}
