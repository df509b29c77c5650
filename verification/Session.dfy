/**
 The debug session on top of the client: whether it is live, and the cache of breakpoints that gives the ids which
 the device reports their file and line. Requests are split at their await: a `Finish` method is what runs when the
 response has arrived.
 */
module Session {
  import opened Wrappers
  import opened JsMap
  import opened Messages

  datatype SessionState = Live | ChannelExited | ConnectionLost

  datatype Entry = Entry(id: int, file: string, line: int)

  type Cache = JsMap<string, Entry>

  // ---------------------------------------------------------------- cache keys

  function Digit(d: nat): char
    requires d < 10
  {
    '0' + d as char
  }

  function Digits(n: nat): (s: string)
    ensures |s| > 0 && forall c :: c in s ==> '0' <= c <= '9'
  {
    if n < 10 then [Digit(n)] else Digits(n / 10) + [Digit(n % 10)]
  }

  /** A whole number as JavaScript prints it. */
  function Decimal(n: int): string { if n < 0 then "-" + Digits(-n) else Digits(n) }

  function Key(file: string, line: int): string { file + ":" + Decimal(line) }

  lemma {:induction false} DigitsInjective(m: nat, n: nat)
    requires Digits(m) == Digits(n)
    ensures m == n
    decreases m + n
  {
    if m >= 10 && n >= 10 {
      var a, b := Digits(m), Digits(n);
      assert a[..|a| - 1] == Digits(m / 10) && b[..|b| - 1] == Digits(n / 10);
      assert a[|a| - 1] == Digit(m % 10) && b[|b| - 1] == Digit(n % 10);
      DigitsInjective(m / 10, n / 10);
    }
  }

  lemma SignOfDecimal(n: int)
    ensures Decimal(n) != [] && (Decimal(n)[0] == '-' <==> n < 0)
  {
    if n >= 0 { assert Digits(n)[0] in Digits(n); }
  }

  lemma DecimalInjective(m: int, n: int)
    requires Decimal(m) == Decimal(n)
    ensures m == n
  {
    SignOfDecimal(m);
    SignOfDecimal(n);
    if m < 0 {
      assert Decimal(m)[1..] == Digits(-m) && Decimal(n)[1..] == Digits(-n);
      DigitsInjective(-m, -n);
    } else {
      DigitsInjective(m, n);
    }
  }

  lemma NoColonInDecimal(n: int)
    ensures ':' !in Decimal(n)
  {
  }

  /** The file of a key ends at its last ':'. */
  lemma LastColon(file: string, line: int)
    ensures Key(file, line)[|file|] == ':'
    ensures forall j :: |file| < j < |Key(file, line)| ==> Key(file, line)[j] != ':'
  {
    NoColonInDecimal(line);
    forall j | |file| < j < |Key(file, line)| ensures Key(file, line)[j] != ':' {
      assert Key(file, line)[j] == Decimal(line)[j - |file| - 1];
    }
  }

  /** A key stands for only one file and one line. */
  lemma KeyInjective(f: string, m: int, g: string, n: int)
    ensures Key(f, m) == Key(g, n) <==> f == g && m == n
  {
    if Key(f, m) == Key(g, n) {
      var k := Key(f, m);
      LastColon(f, m);
      LastColon(g, n);
      assert |f| == |g|;
      assert f == k[..|f|] == g;
      assert Decimal(m) == k[|f| + 1..] == Decimal(n);
      DecimalInjective(m, n);
    }
  }

  /** The file, a colon and the line in decimal digits. */
  lemma KeyReads(file: string)
    ensures Key(file, 7) == file + ":7" && Key(file, 120) == file + ":120" && Key(file, -3) == file + ":-3"
  {
    assert Digits(1) == "1" && Digits(12) == "12" && Digits(120) == "120";
  }

  // ---------------------------------------------------------------- what completes

  /** A set that the device accepted, or a clear that it acknowledged. */
  datatype Completion = SetDone(file: string, line: int, id: int) | ClearDone(id: int)

  /** Removes the first entry with this id. */
  function RemoveId(c: Cache, id: int): Cache {
    if c == [] then [] else if c[0].1.id == id then c[1..] else [c[0]] + RemoveId(c[1..], id)
  }

  function Apply(c: Cache, e: Completion): Cache {
    match e
    case SetDone(file, line, id) => Put(c, Key(file, line), Entry(id, file, line))
    case ClearDone(id) => RemoveId(c, id)
  }

  function Replay(history: seq<Completion>): Cache {
    if history == [] then [] else Apply(Replay(history[..|history| - 1]), history[|history| - 1])
  }

  lemma ReplaySnoc(history: seq<Completion>, e: Completion)
    ensures Replay(history + [e]) == Apply(Replay(history), e)
  {
    assert (history + [e])[..|history|] == history;
  }

  /** The latest completed set of a location was given this id, which has not been cleared since. */
  ghost predicate Holds(history: seq<Completion>, file: string, line: int, id: int) {
    exists k :: 0 <= k < |history| && history[k] == SetDone(file, line, id) && Undisturbed(history, k)
  }

  ghost predicate Undisturbed(history: seq<Completion>, k: nat)
    requires k < |history| && history[k].SetDone?
  {
    forall j :: k < j < |history| ==>
      && history[j] != ClearDone(history[k].id)
      && (history[j].SetDone? ==> history[j].file != history[k].file || history[j].line != history[k].line)
  }

  /** The device never gives one id to two locations. */
  ghost predicate OneLocationPerId(history: seq<Completion>) {
    forall e, e' :: e in history && e' in history && e.SetDone? && e'.SetDone? && e.id == e'.id ==>
      e.file == e'.file && e.line == e'.line
  }

  // ---------------------------------------------------------------- the cache is a location map

  /** Every entry stands under its own key, once, and came from a completed set. */
  ghost predicate Sound(c: Cache, history: seq<Completion>) {
    && Keyed(c)
    && forall p :: p in c ==> p.0 == Key(p.1.file, p.1.line) && SetDone(p.1.file, p.1.line, p.1.id) in history
  }

  lemma RemoveIdMembers(c: Cache, id: int)
    ensures forall p :: p in RemoveId(c, id) ==> p in c
    ensures forall p :: p in c && p.1.id != id ==> p in RemoveId(c, id)
  {
    if c != [] && c[0].1.id != id { RemoveIdMembers(c[1..], id); }
  }

  lemma {:induction false} RemoveIdKeepsDistinct(c: Cache, id: int)
    requires Keyed(c)
    ensures Keyed(RemoveId(c, id))
  {
    if c != [] {
      hide Keyed;
      DistinctTail(c);
      if c[0].1.id != id {
        RemoveIdKeepsDistinct(c[1..], id);
        RemoveIdMembers(c[1..], id);
        DistinctCons(c[0], RemoveId(c[1..], id));
      }
    }
  }

  lemma {:induction false} ReplaySound(history: seq<Completion>)
    ensures Sound(Replay(history), history)
    decreases |history|
  {
    if history != [] {
      var front, last := history[..|history| - 1], history[|history| - 1];
      var c := Replay(front);
      ReplaySound(front);
      assert forall e :: e in history <==> e in front || e == last;
      match last
      case SetDone(file, line, id) =>
        PutMembers(c, Key(file, line), Entry(id, file, line));
        PutKeepsDistinct(c, Key(file, line), Entry(id, file, line));
      case ClearDone(id) =>
        RemoveIdMembers(c, id);
        RemoveIdKeepsDistinct(c, id);
    }
  }

  /** Two cached entries with the same id would be two locations with that id. */
  lemma UniqueIds(c: Cache, history: seq<Completion>)
    requires Sound(c, history) && OneLocationPerId(history)
    ensures forall i, j :: 0 <= i < j < |c| ==> c[i].1.id != c[j].1.id
  {
    forall i, j | 0 <= i < j < |c| ensures c[i].1.id != c[j].1.id {
      assert c[i] in c && c[j] in c;
    }
  }

  /** At most one entry has the id. */
  ghost predicate AtMostOne(c: Cache, id: int) {
    forall i, j :: 0 <= i < j < |c| ==> !(c[i].1.id == id && c[j].1.id == id)
  }

  /** When no other entry shares the id, clearing it removes exactly its entry. */
  lemma {:induction false} RemoveIdGet(c: Cache, id: int, k: string)
    requires Keyed(c) && AtMostOne(c, id)
    ensures Get(RemoveId(c, id), k)
         == match Get(c, k) {
              case Some(e) => if e.id == id then None else Some(e)
              case None => None
            }
  {
    if c != [] {
      assert forall i :: 0 <= i < |c| - 1 ==> c[1..][i] == c[i + 1];
      if c[0].1.id != id {
        RemoveIdGet(c[1..], id, k);
      } else {
        GetAbsent(c[1..], c[0].0);
        GetOtherId(c[1..], k, id);
      }
    }
  }

  lemma {:induction false} GetAbsent(c: Cache, k: string)
    requires forall i :: 0 <= i < |c| ==> c[i].0 != k
    ensures Get(c, k) == None
  {
    if c != [] { GetAbsent(c[1..], k); }
  }

  lemma {:induction false} GetOtherId(c: Cache, k: string, id: int)
    requires forall i :: 0 <= i < |c| ==> c[i].1.id != id
    ensures Get(c, k).Some? ==> Get(c, k).value.id != id
  {
    if c != [] { GetOtherId(c[1..], k, id); }
  }

  /** After a clear no entry has the id exactly when at most one had it before: only the first one is removed. */
  lemma {:induction false} ClearForgetsIdIff(c: Cache, id: int)
    ensures (forall p :: p in RemoveId(c, id) ==> p.1.id != id)
       <==> AtMostOne(c, id)
  {
    if c != [] {
      var tail := c[1..];
      assert forall i :: 0 <= i < |tail| ==> tail[i] == c[i + 1];
      if c[0].1.id == id {
        assert forall p :: p in tail <==> exists j :: 1 <= j < |c| && c[j] == p;
        assert (exists j :: 1 <= j < |c| && c[j].1.id == id) ==> exists p :: p in tail && p.1.id == id;
      } else {
        ClearForgetsIdIff(tail, id);
        assert forall p :: p in RemoveId(c, id) <==> p == c[0] || p in RemoveId(tail, id);
        assert forall i, j :: 0 <= i < j < |tail| ==> c[i + 1] == tail[i] && c[j + 1] == tail[j];
      }
    }
  }

  /** Of two entries with one id the second is left when the id is cleared. */
  lemma SecondOfTwoStays(k: string, d: Entry, l: string, e: Entry)
    requires k != l && d.id == e.id
    ensures Get(RemoveId(Put(Put([], k, d), l, e), d.id), l) == Some(e)
  {
    var first, second := (k, d), (l, e);
    assert Put([], k, d) == [first] && [first][1..] == [];
    assert Put([first], l, e) == [first] + Put([], l, e) == [first, second];
    assert [first, second][1..] == [second];
  }

  lemma NothingReplayed()
    ensures Replay([]) == []
  {
  }

  /** A device that gives one id to two locations: after the id is cleared, one of them is still cached. */
  lemma ReusedIdSurvivesClear(file: string)
    ensures Get(Replay([SetDone(file, 1, 7), SetDone(file, 2, 7), ClearDone(7)]), Key(file, 2))
         == Some(Entry(7, file, 2))
  {
    hide Key, Replay, Get, Put, RemoveId;
    var one, two := SetDone(file, 1, 7), SetDone(file, 2, 7);
    NothingReplayed();
    ReplaySnoc([], one);
    ReplaySnoc([one], two);
    ReplaySnoc([one, two], ClearDone(7));
    assert [] + [one] == [one] && [one] + [two] == [one, two];
    assert [one, two] + [ClearDone(7)] == [one, two, ClearDone(7)];
    KeyInjective(file, 1, file, 2);
    SecondOfTwoStays(Key(file, 1), Entry(7, file, 1), Key(file, 2), Entry(7, file, 2));
  }

  lemma HoldsSnoc(history: seq<Completion>, last: Completion, file: string, line: int, id: int)
    ensures Holds(history + [last], file, line, id) <==>
      match last
      case SetDone(f, l, i) => if f == file && l == line then i == id else Holds(history, file, line, id)
      case ClearDone(i) => i != id && Holds(history, file, line, id)
  {
    var all := history + [last];
    if Holds(history, file, line, id) {
      var k :| 0 <= k < |history| && history[k] == SetDone(file, line, id) && Undisturbed(history, k);
      assert all[k] == history[k] && all[|history|] == last;
    }
    if Holds(all, file, line, id) {
      var k :| 0 <= k < |all| && all[k] == SetDone(file, line, id) && Undisturbed(all, k);
      assert all[|history|] == last;
      if k < |history| {
        assert forall j :: k < j < |history| ==> all[j] == history[j];
        assert Undisturbed(history, k);
      }
    }
    if last == SetDone(file, line, id) { assert all[|history|] == last && Undisturbed(all, |history|); }
  }

  /** A location is cached with an id exactly when its latest set was given this id and the id not cleared since. */
  ghost predicate IsLocationMap(history: seq<Completion>) {
    forall file, line, id ::
      Get(Replay(history), Key(file, line)) == Some(Entry(id, file, line)) <==> Holds(history, file, line, id)
  }

  lemma NothingIsLocationMap()
    ensures IsLocationMap([])
  {
  }

  lemma SetKeepsLocationMap(history: seq<Completion>, f: string, l: int, i: int)
    requires IsLocationMap(history)
    ensures IsLocationMap(history + [SetDone(f, l, i)])
  {
    hide Replay, Get, Put, Key, Holds;
    var last := SetDone(f, l, i);
    ReplaySnoc(history, last);
    forall file, line, id
      ensures Get(Replay(history + [last]), Key(file, line)) == Some(Entry(id, file, line))
         <==> Holds(history + [last], file, line, id)
    {
      HoldsSnoc(history, last, file, line, id);
      KeyInjective(f, l, file, line);
      GetPut(Replay(history), Key(f, l), Entry(i, f, l), Key(file, line));
    }
  }

  /** A clear keeps the cache a location map exactly when it finds at most one entry with its id. */
  lemma ClearKeepsLocationMapIff(history: seq<Completion>, i: int)
    requires IsLocationMap(history)
    ensures IsLocationMap(history + [ClearDone(i)]) <==> AtMostOne(Replay(history), i)
  {
    hide Replay, Get, RemoveId, Key, Holds, AtMostOne, Keyed;
    var c, last := Replay(history), ClearDone(i);
    ReplaySnoc(history, last);
    ReplaySound(history);
    if AtMostOne(c, i) {
      forall file, line, id
        ensures Get(Replay(history + [last]), Key(file, line)) == Some(Entry(id, file, line))
           <==> Holds(history + [last], file, line, id)
      {
        HoldsSnoc(history, last, file, line, id);
        RemoveIdGet(c, i, Key(file, line));
      }
    } else {
      ClearForgetsIdIff(c, i);
      var p :| p in RemoveId(c, i) && p.1.id == i;
      RemoveIdMembers(c, i);
      RemoveIdKeepsDistinct(c, i);
      GetIsMember(RemoveId(c, i), p.0, p.1);
      assert (p.0, p.1) == p && p.1 == Entry(i, p.1.file, p.1.line);
      HoldsSnoc(history, last, p.1.file, p.1.line, i);
    }
  }

  /** Every clear finds at most one entry with its id. */
  ghost predicate ClearsFindOne(history: seq<Completion>) {
    forall k :: 0 <= k < |history| && history[k].ClearDone? ==> AtMostOne(Replay(history[..k]), history[k].id)
  }

  ghost predicate AlwaysLocationMap(history: seq<Completion>) {
    forall k :: 0 <= k <= |history| ==> IsLocationMap(history[..k])
  }

  lemma ClearsFindOneSnoc(front: seq<Completion>, last: Completion)
    ensures ClearsFindOne(front + [last])
       <==> ClearsFindOne(front) && (last.ClearDone? ==> AtMostOne(Replay(front), last.id))
  {
    hide AtMostOne, Replay;
    var all := front + [last];
    assert all[..|front|] == front && all[|front|] == last;
    assert forall k :: 0 <= k < |front| ==> all[k] == front[k] && all[..k] == front[..k];
  }

  lemma AlwaysLocationMapSnoc(front: seq<Completion>, last: Completion)
    ensures AlwaysLocationMap(front + [last]) <==> AlwaysLocationMap(front) && IsLocationMap(front + [last])
  {
    hide IsLocationMap;
    var all := front + [last];
    assert all[..|all|] == all;
    assert forall k :: 0 <= k <= |front| ==> all[..k] == front[..k];
  }

  /**
   Throughout a history of completed sets and clears the cache is a location map exactly when every clear finds at most
   one entry with its id.
   */
  lemma {:induction false} LocationMapIff(history: seq<Completion>)
    ensures AlwaysLocationMap(history) <==> ClearsFindOne(history)
    decreases |history|
  {
    hide IsLocationMap, AtMostOne, Replay;
    if history == [] {
      NothingIsLocationMap();
      assert history[..0] == [];
    } else {
      hide AlwaysLocationMap, ClearsFindOne;
      var front, last := history[..|history| - 1], history[|history| - 1];
      assert front + [last] == history;
      LocationMapIff(front);
      ClearsFindOneSnoc(front, last);
      AlwaysLocationMapSnoc(front, last);
      if AlwaysLocationMap(front) {
        AlwaysNow(front);
        match last
        case SetDone(f, l, i) => SetKeepsLocationMap(front, f, l, i);
        case ClearDone(i) => ClearKeepsLocationMapIff(front, i);
      }
    }
  }

  lemma AlwaysNow(history: seq<Completion>)
    requires AlwaysLocationMap(history)
    ensures IsLocationMap(history)
  {
    hide IsLocationMap;
    assert history[..|history|] == history;
  }

  /** In particular if the device never gives one id to two locations. */
  lemma CacheIsLocationMap(history: seq<Completion>)
    requires OneLocationPerId(history)
    ensures AlwaysLocationMap(history)
  {
    hide AlwaysLocationMap, Replay;
    forall k | 0 <= k < |history| && history[k].ClearDone? ensures AtMostOne(Replay(history[..k]), history[k].id) {
      assert forall e :: e in history[..k] ==> e in history;
      ReplaySound(history[..k]);
      UniqueIds(Replay(history[..k]), history[..k]);
    }
    LocationMapIff(history);
  }

  // ---------------------------------------------------------------- listing

  /** The cached entry with this id; a later entry would hide an earlier one. */
  function FindId(c: Cache, id: int): Option<Entry> {
    if c == [] then None
    else if c[|c| - 1].1.id == id then Some(c[|c| - 1].1)
    else FindId(c[..|c| - 1], id)
  }

  /** The device's list, in its order, without the ids that are not cached. */
  function Listed(c: Cache, reported: seq<BreakpointEntry>): seq<Entry> {
    if reported == [] then []
    else
      (match FindId(c, reported[0].breakpointId) case Some(e) => [e] case None => []) + Listed(c, reported[1..])
  }

  lemma {:induction false} FindIdFinds(c: Cache, id: int)
    ensures match FindId(c, id)
            case Some(e) => e.id == id && LastWithItsId(c, e)
            case None => forall p :: p in c ==> p.1.id != id
  {
    if c != [] {
      var front, last := c[..|c| - 1], c[|c| - 1];
      FindIdFinds(front, id);
      assert forall p :: p in c <==> p in front || p == last;
      assert forall i :: 0 <= i < |front| ==> c[i] == front[i];
    }
  }

  /** The entry is cached, and no later one has its id. */
  ghost predicate LastWithItsId(c: Cache, e: Entry) {
    exists i :: 0 <= i < |c| && c[i].1 == e && forall j :: i < j < |c| ==> c[j].1.id != e.id
  }

  function IdsOf(es: seq<Entry>): seq<int> { if es == [] then [] else [es[0].id] + IdsOf(es[1..]) }

  /** The ids reported, in order, of which the cache knows an entry. */
  ghost function KnownIds(c: Cache, reported: seq<BreakpointEntry>): seq<int> {
    if reported == [] then []
    else (if exists p :: p in c && p.1.id == reported[0].breakpointId then [reported[0].breakpointId] else [])
         + KnownIds(c, reported[1..])
  }

  lemma {:induction false} IdsOfAppend(xs: seq<Entry>, ys: seq<Entry>)
    ensures IdsOf(xs + ys) == IdsOf(xs) + IdsOf(ys)
  {
    if xs == [] { assert xs + ys == ys; } else {
      assert (xs + ys)[1..] == xs[1..] + ys;
      IdsOfAppend(xs[1..], ys);
    }
  }

  /** The listing is the device's list filtered to cached ids, in device order, each with the last entry of its id. */
  lemma {:induction false} ListedIsFilter(c: Cache, reported: seq<BreakpointEntry>)
    ensures IdsOf(Listed(c, reported)) == KnownIds(c, reported)
    ensures forall e :: e in Listed(c, reported) ==> LastWithItsId(c, e)
  {
    if reported != [] {
      ListedIsFilter(c, reported[1..]);
      var id := reported[0].breakpointId;
      FindIdFinds(c, id);
      match FindId(c, id)
      case Some(e) =>
        IdsOfAppend([e], Listed(c, reported[1..]));
        assert IdsOf([e]) == [id];
      case None => assert [] + Listed(c, reported[1..]) == Listed(c, reported[1..]);
    }
  }

  /** Every breakpoint listed is at the location whose latest set was given its id. */
  lemma ListedLocations(history: seq<Completion>, reported: seq<BreakpointEntry>, e: Entry)
    requires IsLocationMap(history) && e in Listed(Replay(history), reported)
    ensures Holds(history, e.file, e.line, e.id)
  {
    hide Replay, Get, Key, Holds, Keyed, Listed;
    var c := Replay(history);
    ListedIsFilter(c, reported);
    ReplaySound(history);
    var i :| 0 <= i < |c| && c[i].1 == e;
    var p := c[i];
    assert p in c;
    GetIsMember(c, p.0, p.1);
    assert (p.0, p.1) == p && e == Entry(e.id, e.file, e.line);
  }

  function LocationsOf(c: Cache): (locations: seq<(string, int)>)
    ensures |locations| == |c| && forall i :: 0 <= i < |c| ==> locations[i] == (c[i].1.file, c[i].1.line)
  {
    seq(|c|, i requires 0 <= i < |c| => (c[i].1.file, c[i].1.line))
  }

  // ---------------------------------------------------------------- states over runs

  datatype SessionEvent = ClientClosed | DetachCalled

  /** State, whether `detach` has been called, and how often the session has closed its client. */
  datatype Life = Life(state: SessionState, detached: bool, clientCloses: nat)

  const FRESH := Life(Live, false, 0)

  function Lost(state: SessionState): SessionState { if state.Live? then ConnectionLost else state }

  function After(life: Life, e: SessionEvent): Life {
    match e
    case ClientClosed => life.(state := Lost(life.state))
    case DetachCalled => if life.detached then life else Life(Lost(life.state), true, life.clientCloses + 1)
  }

  function AfterAll(life: Life, es: seq<SessionEvent>): Life {
    if es == [] then life else After(AfterAll(life, es[..|es| - 1]), es[|es| - 1])
  }

  /**
   A session is live exactly while nothing has closed it, lost ever after, detached exactly if `detach` was called, and
   closes its client once if it is detached and never otherwise.
   */
  lemma {:induction false} LifeOfSession(es: seq<SessionEvent>)
    ensures var life := AfterAll(FRESH, es);
            && (life.state == if es == [] then Live else ConnectionLost)
            && (life.detached <==> DetachCalled in es)
            && life.clientCloses == if DetachCalled in es then 1 else 0
    decreases |es|
  {
    if es != [] {
      LifeOfSession(es[..|es| - 1]);
      assert forall e :: e in es <==> e in es[..|es| - 1] || e == es[|es| - 1];
    }
  }

  lemma AfterAllSnoc(es: seq<SessionEvent>, e: SessionEvent)
    ensures AfterAll(FRESH, es + [e]) == After(AfterAll(FRESH, es), e)
  {
    assert (es + [e])[..|es|] == es;
  }

  // ---------------------------------------------------------------- the session itself

  datatype SetResult = Assigned(id: int) | Rejected

  class BdpSession {
    var state: SessionState
    var detached: bool
    var breakpoints: Cache
    ghost var history: seq<Completion>
    ghost var clientCloses: nat
    ghost var events: seq<SessionEvent>

    ghost predicate Valid()
      reads this
    {
      breakpoints == Replay(history) && Life(state, detached, clientCloses) == AfterAll(FRESH, events)
    }

    constructor ()
      ensures Valid() && state == Live && !detached && breakpoints == [] && history == [] && events == []
    {
      state, detached, breakpoints := Live, false, [];
      history, clientCloses, events := [], 0, [];
    }

    /** Requests are made only by a live session. */
    method GuardLive() returns (ok: bool)
      requires Valid()
      ensures ok <==> events == []
    {
      LifeOfSession(events);
      ok := state.Live?;
    }

    ghost method Complete(e: Completion)
      modifies this`history
      ensures history == old(history) + [e]
    {
      history := history + [e];
    }

    /** The response to a set: cached only if it is of the right kind, not empty, and its first entry has no error. */
    method FinishSet(file: string, line: int, res: Response) returns (r: SetResult)
      requires Valid()
      modifies this`breakpoints, this`history
      ensures Valid()
      ensures res.BreakpointsAdded? && res.entries != [] && res.entries[0].errorCode == 0 ==>
                r == Assigned(res.entries[0].breakpointId)
      ensures !(res.BreakpointsAdded? && res.entries != [] && res.entries[0].errorCode == 0) ==> r == Rejected
      ensures history == old(history) + if r.Assigned? then [SetDone(file, line, r.id)] else []
    {
      hide Replay, Put;
      if !res.BreakpointsAdded? || res.entries == [] || res.entries[0].errorCode != 0 { return Rejected; }
      var id := res.entries[0].breakpointId;
      breakpoints := Put(breakpoints, Key(file, line), Entry(id, file, line));
      ReplaySnoc(history, SetDone(file, line, id));
      Complete(SetDone(file, line, id));
      r := Assigned(id);
    }

    /** The response to a clear: the first entry with the id leaves the cache. */
    method FinishClear(id: int)
      requires Valid()
      modifies this`breakpoints, this`history
      ensures Valid() && history == old(history) + [ClearDone(id)]
    {
      hide RemoveId, Replay;
      var i := 0;
      while i < |breakpoints| && breakpoints[i].1.id != id
        invariant 0 <= i <= |breakpoints|
        invariant RemoveId(breakpoints, id) == breakpoints[..i] + RemoveId(breakpoints[i..], id)
        modifies {}
      {
        RemoveIdStep(breakpoints, i, id);
        i := i + 1;
      }
      RemoveIdStop(breakpoints, i, id);
      if i < |breakpoints| { breakpoints := breakpoints[..i] + breakpoints[i + 1..]; }
      ReplaySnoc(history, ClearDone(id));
      Complete(ClearDone(id));
    }

    /** The response to a list: indexes the cache by id, then walks the device's list, unless the kind is wrong. */
    method FinishList(res: Response) returns (r: Option<seq<Entry>>)
      requires Valid()
      ensures r == if res.BreakpointsList? then Some(Listed(breakpoints, res.entries)) else None
    {
      hide FindId, Listed, Replay;
      if !res.BreakpointsList? { return None; }
      var reported := res.entries;
      var byId: map<int, Entry> := map[];
      var i := 0;
      NothingFound();
      while i < |breakpoints|
        invariant 0 <= i <= |breakpoints|
        invariant forall id :: FindId(breakpoints[..i], id) == if id in byId then Some(byId[id]) else None
      {
        FindIdStep(breakpoints, i);
        byId := byId[breakpoints[i].1.id := breakpoints[i].1];
        i := i + 1;
      }
      assert breakpoints[..i] == breakpoints;
      var result: seq<Entry> := [];
      i := 0;
      while i < |reported|
        invariant 0 <= i <= |reported|
        invariant result + Listed(breakpoints, reported[i..]) == Listed(breakpoints, reported)
      {
        var id := reported[i].breakpointId;
        ListedStep(breakpoints, reported, i, result);
        assert FindId(breakpoints, id) == if id in byId then Some(byId[id]) else None;
        if id in byId { result := result + [byId[id]]; }
        i := i + 1;
      }
      assert reported[i..] == [];
      NothingListed(breakpoints);
      assert result + [] == result;
      r := Some(result);
    }

    /** File and line of every cached breakpoint; also after the session is detached. */
    method CurrentBreakpoints() returns (locations: seq<(string, int)>)
      ensures locations == LocationsOf(breakpoints)
    {
      locations := [];
      var i := 0;
      while i < |breakpoints|
        invariant 0 <= i <= |breakpoints|
        invariant locations == LocationsOf(breakpoints)[..i]
      {
        locations := locations + [(breakpoints[i].1.file, breakpoints[i].1.line)];
        i := i + 1;
      }
    }

    /** The client reports that its socket has closed. */
    method OnClientClosed()
      requires Valid()
      modifies this`state, this`events
      ensures Valid() && !state.Live? && events == old(events) + [ClientClosed]
    {
      AfterAllSnoc(events, ClientClosed);
      if state.Live? { state := ConnectionLost; }
      events := events + [ClientClosed];
    }

    /** Idempotent; the cache of breakpoints stays as it is. */
    method Detach()
      requires Valid()
      modifies this`state, this`detached, this`clientCloses, this`events
      ensures Valid() && detached && !state.Live? && events == old(events) + [DetachCalled]
      ensures clientCloses == 1
      ensures old(detached) ==> state == old(state)
    {
      AfterAllSnoc(events, DetachCalled);
      LifeOfSession(events + [DetachCalled]);
      events := events + [DetachCalled];
      if detached { return; }
      detached := true;
      clientCloses := clientCloses + 1;
      if state.Live? { state := ConnectionLost; }
    }
  }

  lemma NothingFound()
    ensures forall id :: FindId([], id) == None
  {
  }

  lemma FindIdStep(c: Cache, i: nat)
    requires i < |c|
    ensures forall id :: FindId(c[..i + 1], id) == if c[i].1.id == id then Some(c[i].1) else FindId(c[..i], id)
  {
    var upTo := c[..i + 1];
    forall id ensures FindId(upTo, id) == if c[i].1.id == id then Some(c[i].1) else FindId(c[..i], id) {
      assert upTo[..|upTo| - 1] == c[..i] && upTo[|upTo| - 1] == c[i];
    }
  }

  lemma NothingListed(c: Cache)
    ensures Listed(c, []) == []
  {
  }

  lemma ListedStep(c: Cache, reported: seq<BreakpointEntry>, i: nat, before: seq<Entry>)
    requires i < |reported|
    ensures before + Listed(c, reported[i..])
         == (match FindId(c, reported[i].breakpointId) case Some(e) => before + [e] case None => before)
            + Listed(c, reported[i + 1..])
  {
    assert reported[i..][1..] == reported[i + 1..];
  }

  lemma RemoveIdStop(c: Cache, i: nat, id: int)
    requires i <= |c| && (i < |c| ==> c[i].1.id == id)
    ensures c[..i] + RemoveId(c[i..], id) == if i < |c| then c[..i] + c[i + 1..] else c
  {
    if i < |c| { assert c[i..][1..] == c[i + 1..]; }
  }

  lemma RemoveIdStep(c: Cache, i: nat, id: int)
    requires i < |c| && c[i].1.id != id
    ensures c[..i] + RemoveId(c[i..], id) == c[..i + 1] + RemoveId(c[i + 1..], id)
  {
    assert c[i..][1..] == c[i + 1..];
    assert c[..i] + [c[i]] == c[..i + 1];
  }
}
