/** How report.go puts a kind on a failure: type tests in a fixed order, each over the whole tree of
    wrapped and joined errors. */
module FailureReport {
  import opened Wrappers

  /** What an error is, apart from what it says. Plain is any error no test asks for: a wrapper, a join,
      another package's error. */
  datatype What =
    | Provider(code: string, detail: Option<string>)
    | Relay(code: string)
    | Stream(code: string, message: string, relay: bool)
    | PeerIdentityMismatch
    | RefusedRegistration(kind: string, name: string, station: string, reason: string)
    | Unacknowledged(kind: string, name: string, station: string)
    | Refusal(code: string, status: int)
    | CallTimeout
    | DeadlineExceeded
    | NoLink
    | NoProvider
    | StationEndpoint(station: string, reason: string)
    | NoRealmKey
    | RecordNotFound
    | NotShared
    | ContentUnavailable
    | Plain

  /** An error with its message and the errors it unwraps to: none, one, or a join's many. */
  datatype Failure = Failure(what: What, text: string, causes: seq<Failure>)

  /** Every node, an error before its causes, causes in their order. */
  function Nodes(f: Failure): (ns: seq<What>)
    ensures ns != []
    decreases f, 0
  {
    [f.what] + AllNodes(f.causes)
  }

  function AllNodes(fs: seq<Failure>): (ns: seq<What>)
    decreases fs, 1
  {
    if fs == [] then [] else Nodes(fs[0]) + AllNodes(fs[1..])
  }

  /** What a call of errors.As or errors.Is asks for. */
  datatype Sought =
    | AProvider | ARelay | AStream | AMismatch | ARefused | AnUnacknowledged | ARefusal
    | ACallTimeout | ADeadline | ANoLink | ANoProvider | AnEndpoint
    | ANoRealmKey | ANotFound | ANotShared | AContentUnavailable

  predicate Matches(s: Sought, w: What) {
    match s
    case AProvider => w.Provider?
    case ARelay => w.Relay?
    case AStream => w.Stream?
    case AMismatch => w.PeerIdentityMismatch?
    case ARefused => w.RefusedRegistration?
    case AnUnacknowledged => w.Unacknowledged?
    case ARefusal => w.Refusal?
    case ACallTimeout => w.CallTimeout?
    case ADeadline => w.DeadlineExceeded?
    case ANoLink => w.NoLink?
    case ANoProvider => w.NoProvider?
    case AnEndpoint => w.StationEndpoint?
    case ANoRealmKey => w.NoRealmKey?
    case ANotFound => w.RecordNotFound?
    case ANotShared => w.NotShared?
    case AContentUnavailable => w.ContentUnavailable?
  }

  /** `errors.As`: the first match of a depth-first walk. */
  function As(f: Failure, s: Sought): (r: Option<What>)
    ensures r.Some? ==> Matches(s, r.value)
    decreases f, 0
  {
    if Matches(s, f.what) then Some(f.what) else AsAny(f.causes, s)
  }

  function AsAny(fs: seq<Failure>, s: Sought): (r: Option<What>)
    ensures r.Some? ==> Matches(s, r.value)
    decreases fs, 1
  {
    if fs == [] then None
    else
      var first := As(fs[0], s);
      if first.Some? then first else AsAny(fs[1..], s)
  }

  // ---------------------------------------------------------------- the verdict

  datatype Detail =
    | NoDetail
    | Given(text: string)
    | AtStation(kind: string, name: string, station: string)
    | HttpStatus(status: int)
    | OfStation(station: string)

  datatype Verdict = Verdict(kind: string, code: string, detail: Detail, relay: bool)

  /** What is reported of one error. */
  function Describe(w: What): (v: Verdict) {
    match w
    case Provider(code, detail) =>
      Verdict("provider_error", code, if detail.Some? then Given(detail.value) else NoDetail, false)
    case Relay(code) => Verdict("relay_error", code, NoDetail, false)
    case Stream(code, message, relay) => Verdict("stream_error", code, Given(message), relay)
    case PeerIdentityMismatch => Verdict("identity_mismatch", "", NoDetail, false)
    case RefusedRegistration(kind, name, station, reason) =>
      Verdict("refused", reason, AtStation(kind, name, station), false)
    case Unacknowledged(kind, name, station) => Verdict("unacknowledged", "", AtStation(kind, name, station), false)
    case Refusal(code, status) => Verdict("realm_refusal", code, HttpStatus(status), false)
    case CallTimeout => Verdict("timeout", "", NoDetail, false)
    case DeadlineExceeded => Verdict("timeout", "", NoDetail, false)
    case NoLink => Verdict("no_link", "", NoDetail, false)
    case NoProvider => Verdict("no_provider", "", NoDetail, false)
    case StationEndpoint(station, reason) => Verdict("no_station_endpoint", reason, OfStation(station), false)
    case NoRealmKey => Verdict("no_realm_key", "", NoDetail, false)
    case RecordNotFound => Verdict("not_found", "", NoDetail, false)
    case NotShared => Verdict("not_shared", "", NoDetail, false)
    case ContentUnavailable => Verdict("content_unavailable", "", NoDetail, false)
    case Plain => Verdict("failed", "", NoDetail, false)
  }

  /** The place of an error's kind in the order of the tests; lower ranks higher. */
  function Rank(w: What): (r: nat)
    ensures r <= 15
  {
    match w
    case Provider(_, _) => 0
    case Relay(_) => 1
    case Stream(_, _, _) => 2
    case PeerIdentityMismatch => 3
    case RefusedRegistration(_, _, _, _) => 4
    case Unacknowledged(_, _, _) => 5
    case Refusal(_, _) => 6
    case CallTimeout => 7
    case DeadlineExceeded => 7
    case NoLink => 8
    case NoProvider => 9
    case StationEndpoint(_, _) => 10
    case NoRealmKey => 11
    case RecordNotFound => 12
    case NotShared => 13
    case ContentUnavailable => 14
    case Plain => 15
  }

  /** The first of the highest-ranked nodes. */
  function Chosen(ns: seq<What>): (w: What)
    requires ns != []
    ensures w in ns
  {
    if |ns| == 1 then ns[0]
    else
      var later := Chosen(ns[1..]);
      if Rank(ns[0]) <= Rank(later) then ns[0] else later
  }

  // ---------------------------------------------------------------- the code

  /** The failure as reported, filled in by the helpers. */
  class Error {
    var kind: string
    var code: string
    var detail: Detail
    var relay: bool
    const message: string

    constructor (kind: string, message: string)
      ensures this.kind == kind && code == "" && detail == NoDetail && relay == false && this.message == message
    {
      this.kind, this.code, this.detail, this.relay, this.message := kind, "", NoDetail, false, message;
    }

    function View(): (v: Verdict)
      reads this
    {
      Verdict(kind, code, detail, relay)
    }
  }

  /** The first node a test asks for. */
  function FirstIn(ns: seq<What>, s: Sought): (r: Option<What>)
    ensures r.Some? ==> Matches(s, r.value) && r.value in ns
    ensures r.None? ==> forall i :: 0 <= i < |ns| ==> !Matches(s, ns[i])
  {
    if ns == [] then None else if Matches(s, ns[0]) then Some(ns[0]) else FirstIn(ns[1..], s)
  }

  lemma {:induction false} FirstInAppend(a: seq<What>, b: seq<What>, s: Sought)
    ensures FirstIn(a + b, s) == if FirstIn(a, s).Some? then FirstIn(a, s) else FirstIn(b, s)
  {
    if a == [] {
      assert a + b == b;
    } else {
      assert (a + b)[1..] == a[1..] + b;
      FirstInAppend(a[1..], b, s);
    }
  }

  /** errors.As finds the first matching node. */
  lemma {:induction false} AsIsFirst(f: Failure, s: Sought)
    ensures As(f, s) == FirstIn(Nodes(f), s)
    decreases f, 0
  {
    AsAnyIsFirst(f.causes, s);
    assert Nodes(f)[1..] == AllNodes(f.causes);
  }

  lemma {:induction false} AsAnyIsFirst(fs: seq<Failure>, s: Sought)
    ensures AsAny(fs, s) == FirstIn(AllNodes(fs), s)
    decreases fs, 1
  {
    if fs != [] {
      AsIsFirst(fs[0], s);
      AsAnyIsFirst(fs[1..], s);
      FirstInAppend(Nodes(fs[0]), AllNodes(fs[1..]), s);
    }
  }

  /** The rank of what a test asks for. */
  function RankSought(s: Sought): (r: nat) {
    match s
    case AProvider => 0
    case ARelay => 1
    case AStream => 2
    case AMismatch => 3
    case ARefused => 4
    case AnUnacknowledged => 5
    case ARefusal => 6
    case ACallTimeout => 7
    case ADeadline => 7
    case ANoLink => 8
    case ANoProvider => 9
    case AnEndpoint => 10
    case ANoRealmKey => 11
    case ANotFound => 12
    case ANotShared => 13
    case AContentUnavailable => 14
  }

  lemma MatchHasRank(s: Sought, w: What)
    requires Matches(s, w)
    ensures Rank(w) == RankSought(s)
  {
  }

  lemma SameSoughtSameRank(s: Sought, v: What, w: What)
    requires Matches(s, v) && Rank(w) == Rank(v)
    ensures Matches(s, w) || Describe(v) == Describe(w)
  {
  }

  /** When nothing ranks above what a test finds, that is what is reported; when it finds nothing, the
      chosen node is none of its kind. */
  lemma {:induction false} TestMeetsChosen(ns: seq<What>, s: Sought)
    requires ns != [] && Rank(Chosen(ns)) >= RankSought(s)
    ensures FirstIn(ns, s).None? ==> !Matches(s, Chosen(ns))
    ensures FirstIn(ns, s).Some? ==>
              Rank(Chosen(ns)) == RankSought(s) && Describe(Chosen(ns)) == Describe(FirstIn(ns, s).value)
    ensures FirstIn(ns, s).Some? && Matches(s, Chosen(ns)) ==> Chosen(ns) == FirstIn(ns, s).value
  {
    if |ns| == 1 {
      assert FirstIn(ns[1..], s) == None;
      if Matches(s, ns[0]) {
        MatchHasRank(s, ns[0]);
      }
    } else {
      if Matches(s, ns[0]) {
        MatchHasRank(s, ns[0]);
      } else {
        TestMeetsChosen(ns[1..], s);
        if FirstIn(ns, s).Some? && Chosen(ns) == ns[0] {
          MatchHasRank(s, FirstIn(ns, s).value);
          SameSoughtSameRank(s, FirstIn(ns, s).value, ns[0]);
        }
      }
    }
  }

  /** The nodes from rank lo on, and behind them one of no kind. */
  function From(ns: seq<What>, lo: nat): (r: seq<What>)
    ensures r != [] && forall i :: 0 <= i < |r| ==> Rank(r[i]) >= lo || r[i].Plain?
  {
    if ns == [] then [Plain] else (if Rank(ns[0]) >= lo then [ns[0]] else []) + From(ns[1..], lo)
  }

  /** What a helper that tests from rank lo on has to report on. */
  function ChosenFrom(f: Failure, lo: nat): (w: What)
    requires lo <= 15
    ensures Rank(w) >= lo
  {
    Chosen(From(Nodes(f), lo))
  }

  lemma {:induction false} FirstInFrom(ns: seq<What>, s: Sought, lo: nat)
    requires lo <= RankSought(s)
    ensures FirstIn(From(ns, lo), s) == FirstIn(ns, s)
  {
    if ns != [] {
      var tail := From(ns[1..], lo);
      FirstInFrom(ns[1..], s, lo);
      if Matches(s, ns[0]) {
        MatchHasRank(s, ns[0]);
      }
      assert ([ns[0]] + tail)[1..] == tail && [] + tail == tail;
    }
  }

  lemma {:induction false} FromAll(ns: seq<What>)
    ensures From(ns, 0) == ns + [Plain]
  {
    if ns != [] {
      FromAll(ns[1..]);
    }
  }

  /** Where no node ranks between them, it is all the same from which of two ranks one looks. */
  lemma {:induction false} FromHigher(ns: seq<What>, lo: nat, hi: nat)
    requires lo <= hi <= Rank(Chosen(From(ns, lo)))
    ensures From(ns, hi) == From(ns, lo)
  {
    if ns != [] {
      var tail := From(ns[1..], lo);
      if Rank(ns[0]) >= lo {
        assert ([ns[0]] + tail)[1..] == tail;
      } else {
        assert [] + tail == tail;
      }
      FromHigher(ns[1..], lo, hi);
    }
  }

  /** One test over the tree, and what it tells. */
  method Test(f: Failure, s: Sought, ghost lo: nat) returns (found: Option<What>)
    requires lo <= RankSought(s) && RankSought(s) <= Rank(ChosenFrom(f, lo))
    ensures found.Some? ==> Matches(s, found.value) && Rank(ChosenFrom(f, lo)) == RankSought(s)
                            && Describe(ChosenFrom(f, lo)) == Describe(found.value)
    ensures found.None? ==> !Matches(s, ChosenFrom(f, lo))
    ensures found == As(f, s)
  {
    found := As(f, s);
    AsIsFirst(f, s);
    FirstInFrom(Nodes(f), s, lo);
    TestMeetsChosen(From(Nodes(f), lo), s);
  }

  /** None of the tests finds anything in the tree. */
  ghost predicate NoneOf(f: Failure, tests: set<Sought>) {
    forall s :: s in tests ==> As(f, s).None?
  }

  /** Field by field what is filled in for each kind, from the node the first test that finds one finds. */
  ghost predicate WireFields(f: Failure, was: Verdict, v: Verdict) {
    && (As(f, AProvider).Some? ==>
          var p := As(f, AProvider).value;
          v == was.(kind := "provider_error", code := p.code,
                    detail := if p.detail.Some? then Given(p.detail.value) else was.detail))
    && (NoneOf(f, {AProvider}) && As(f, ARelay).Some? ==>
          v == was.(kind := "relay_error", code := As(f, ARelay).value.code))
    && (NoneOf(f, {AProvider, ARelay}) && As(f, AStream).Some? ==>
          var p := As(f, AStream).value;
          v == Verdict("stream_error", p.code, Given(p.message), p.relay))
    && (NoneOf(f, {AProvider, ARelay, AStream}) && As(f, AMismatch).Some? ==>
          v == was.(kind := "identity_mismatch"))
    && (NoneOf(f, {AProvider, ARelay, AStream, AMismatch}) && As(f, ARefused).Some? ==>
          var p := As(f, ARefused).value;
          v == was.(kind := "refused", code := p.reason, detail := AtStation(p.kind, p.name, p.station)))
    && (NoneOf(f, {AProvider, ARelay, AStream, AMismatch, ARefused}) && As(f, AnUnacknowledged).Some? ==>
          var p := As(f, AnUnacknowledged).value;
          v == was.(kind := "unacknowledged", detail := AtStation(p.kind, p.name, p.station)))
  }

  method ClassifyWire(f: Failure, e: Error) returns (done: bool)
    modifies e
    ensures done <==> Rank(ChosenFrom(f, 0)) < 6
    ensures done && old(e.View()) == Verdict("failed", "", NoDetail, false) ==> e.View() == Describe(ChosenFrom(f, 0))
    ensures WireFields(f, old(e.View()), e.View())
    ensures !done ==> e.View() == old(e.View())
  {
    var provider := Test(f, AProvider, 0);
    if provider.Some? {
      e.kind, e.code := "provider_error", provider.value.code;
      if provider.value.detail.Some? {
        e.detail := Given(provider.value.detail.value);
      }
      return true;
    }
    var relay := Test(f, ARelay, 0);
    if relay.Some? {
      e.kind, e.code := "relay_error", relay.value.code;
      return true;
    }
    var stream := Test(f, AStream, 0);
    if stream.Some? {
      e.kind, e.code := "stream_error", stream.value.code;
      e.detail, e.relay := Given(stream.value.message), stream.value.relay;
      return true;
    }
    var mismatch := Test(f, AMismatch, 0);
    if mismatch.Some? {
      e.kind := "identity_mismatch";
      return true;
    }
    var refused := Test(f, ARefused, 0);
    if refused.Some? {
      e.kind, e.code := "refused", refused.value.reason;
      e.detail := AtStation(refused.value.kind, refused.value.name, refused.value.station);
      return true;
    }
    var unacknowledged := Test(f, AnUnacknowledged, 0);
    if unacknowledged.Some? {
      e.kind := "unacknowledged";
      e.detail := AtStation(unacknowledged.value.kind, unacknowledged.value.name, unacknowledged.value.station);
      return true;
    }
    return false;
  }

  method ClassifyRealm(f: Failure, e: Error) returns (done: bool)
    modifies e
    ensures done <==> Rank(ChosenFrom(f, 6)) == 6
    ensures done && old(e.View()) == Verdict("failed", "", NoDetail, false) ==> e.View() == Describe(ChosenFrom(f, 6))
    ensures As(f, ARefusal).Some? ==>
              var p := As(f, ARefusal).value;
              e.View() == old(e.View()).(kind := "realm_refusal", code := p.code, detail := HttpStatus(p.status))
    ensures !done ==> e.View() == old(e.View())
  {
    var refusal := Test(f, ARefusal, 6);
    if refusal.Some? {
      e.kind, e.code, e.detail := "realm_refusal", refusal.value.code, HttpStatus(refusal.value.status);
      return true;
    }
    return false;
  }

  /** The same for classifyLink. */
  ghost predicate LinkFields(f: Failure, was: Verdict, v: Verdict) {
    && (As(f, ACallTimeout).Some? || As(f, ADeadline).Some? ==> v == was.(kind := "timeout"))
    && (NoneOf(f, {ACallTimeout, ADeadline}) ==> UnreachedFields(f, was, v))
  }

  ghost predicate UnreachedFields(f: Failure, was: Verdict, v: Verdict) {
    && (As(f, ANoLink).Some? ==> v == was.(kind := "no_link"))
    && (NoneOf(f, {ANoLink}) && As(f, ANoProvider).Some? ==> v == was.(kind := "no_provider"))
    && (NoneOf(f, {ANoLink, ANoProvider}) && As(f, AnEndpoint).Some? ==>
          var p := As(f, AnEndpoint).value;
          v == was.(kind := "no_station_endpoint", code := p.reason, detail := OfStation(p.station)))
    && (NoneOf(f, {ANoLink, ANoProvider, AnEndpoint}) ==> MissingFields(f, was, v))
  }

  ghost predicate MissingFields(f: Failure, was: Verdict, v: Verdict) {
    && (As(f, ANoRealmKey).Some? ==> v == was.(kind := "no_realm_key"))
    && (NoneOf(f, {ANoRealmKey}) && As(f, ANotFound).Some? ==> v == was.(kind := "not_found"))
    && (NoneOf(f, {ANoRealmKey, ANotFound}) && As(f, ANotShared).Some? ==> v == was.(kind := "not_shared"))
    && (NoneOf(f, {ANoRealmKey, ANotFound, ANotShared}) && As(f, AContentUnavailable).Some? ==>
          v == was.(kind := "content_unavailable"))
  }

  method ClassifyLink(f: Failure, e: Error) returns (done: bool)
    modifies e
    ensures done <==> Rank(ChosenFrom(f, 7)) < 15
    ensures done && old(e.View()) == Verdict("failed", "", NoDetail, false) ==> e.View() == Describe(ChosenFrom(f, 7))
    ensures LinkFields(f, old(e.View()), e.View())
    ensures !done ==> e.View() == old(e.View())
  {
    var timeout := Test(f, ACallTimeout, 7);
    if timeout.None? {
      timeout := Test(f, ADeadline, 7);
    }
    if timeout.Some? {
      e.kind := "timeout";
      return true;
    }
    done := ClassifyUnreached(f, e);
  }

  /** classifyLink's switch behind the timeouts: what is not reached. */
  method ClassifyUnreached(f: Failure, e: Error) returns (done: bool)
    requires Rank(ChosenFrom(f, 7)) >= 8
    modifies e
    ensures done <==> Rank(ChosenFrom(f, 7)) < 15
    ensures done && old(e.View()) == Verdict("failed", "", NoDetail, false) ==> e.View() == Describe(ChosenFrom(f, 7))
    ensures UnreachedFields(f, old(e.View()), e.View())
    ensures !done ==> e.View() == old(e.View())
  {
    var noLink := Test(f, ANoLink, 7);
    if noLink.Some? {
      e.kind := "no_link";
      return true;
    }
    var noProvider := Test(f, ANoProvider, 7);
    if noProvider.Some? {
      e.kind := "no_provider";
      return true;
    }
    var endpoint := Test(f, AnEndpoint, 7);
    if endpoint.Some? {
      e.kind, e.code, e.detail := "no_station_endpoint", endpoint.value.reason, OfStation(endpoint.value.station);
      return true;
    }
    done := ClassifyMissing(f, e);
  }

  /** The rest of classifyLink's switch: what is not there. */
  method ClassifyMissing(f: Failure, e: Error) returns (done: bool)
    requires Rank(ChosenFrom(f, 7)) >= 11
    modifies e
    ensures done <==> Rank(ChosenFrom(f, 7)) < 15
    ensures done && old(e.View()) == Verdict("failed", "", NoDetail, false) ==> e.View() == Describe(ChosenFrom(f, 7))
    ensures MissingFields(f, old(e.View()), e.View())
    ensures !done ==> e.View() == old(e.View())
  {
    var noRealmKey := Test(f, ANoRealmKey, 7);
    if noRealmKey.Some? {
      e.kind := "no_realm_key";
      return true;
    }
    var notFound := Test(f, ANotFound, 7);
    if notFound.Some? {
      e.kind := "not_found";
      return true;
    }
    var notShared := Test(f, ANotShared, 7);
    if notShared.Some? {
      e.kind := "not_shared";
      return true;
    }
    var unavailable := Test(f, AContentUnavailable, 7);
    if unavailable.Some? {
      e.kind := "content_unavailable";
      return true;
    }
    return false;
  }

  lemma ChosenFromAll(f: Failure)
    ensures ChosenFrom(f, 0) == Chosen(Nodes(f))
  {
    FromAll(Nodes(f));
    ChosenAppend(Nodes(f), [Plain]);
  }

  /** The helpers together look at every rank: what is left to a later one is the choice over all. */
  lemma ChosenLater(f: Failure, hi: nat)
    requires hi <= Rank(Chosen(Nodes(f)))
    ensures ChosenFrom(f, hi) == Chosen(Nodes(f))
  {
    ChosenFromAll(f);
    FromHigher(Nodes(f), 0, hi);
  }

  /** `classify`: the report is that of the first of the highest-ranked errors anywhere in the tree. */
  method Classify(f: Failure) returns (e: Error)
    ensures fresh(e) && e.message == f.text
    ensures e.View() == Describe(Chosen(Nodes(f)))
  {
    ChosenFromAll(f);
    e := new Error("failed", f.text);
    var done := ClassifyWire(f, e);
    if !done {
      ChosenLater(f, 6);
      done := ClassifyRealm(f, e);
    }
    if !done {
      ChosenLater(f, 7);
      done := ClassifyLink(f, e);
    }
  }

  // ---------------------------------------------------------------- laws

  /** The kinds in the order of their ranks. */
  const KINDS: seq<string> :=
    ["provider_error", "relay_error", "stream_error", "identity_mismatch", "refused", "unacknowledged",
     "realm_refusal", "timeout", "no_link", "no_provider", "no_station_endpoint", "no_realm_key",
     "not_found", "not_shared", "content_unavailable", "failed"]

  lemma KindOfRank(w: What)
    ensures Describe(w).kind == KINDS[Rank(w)]
  {
  }

  /** No two kinds agree in first letter and length. */
  lemma KindsDiffer(i: nat, j: nat)
    requires i < j < 16
    ensures KINDS[i] != KINDS[j]
  {
    assert KINDS[i][0] != KINDS[j][0] || |KINDS[i]| != |KINDS[j]|;
  }

  /** The kinds the package documents are told apart by rank, the two timeouts apart. */
  lemma KindIsRank(v: What, w: What)
    ensures Describe(v).kind == Describe(w).kind <==> Rank(v) == Rank(w)
  {
    KindOfRank(v);
    KindOfRank(w);
    if Rank(v) < Rank(w) {
      KindsDiffer(Rank(v), Rank(w));
    } else if Rank(v) > Rank(w) {
      KindsDiffer(Rank(w), Rank(v));
    }
  }

  /** The first of the highest: nothing ranks above it, and nothing before it ranks with it. */
  lemma {:induction false} ChosenIsFirstHighest(ns: seq<What>) returns (i: nat)
    requires ns != []
    ensures i < |ns| && ns[i] == Chosen(ns)
    ensures forall j :: 0 <= j < |ns| ==> Rank(ns[i]) <= Rank(ns[j])
    ensures forall j :: 0 <= j < i ==> Rank(ns[i]) < Rank(ns[j])
  {
    i := 0;
    if |ns| > 1 {
      var k := ChosenIsFirstHighest(ns[1..]);
      assert forall j :: 1 <= j < |ns| ==> ns[j] == ns[1..][j - 1];
      if Rank(ns[0]) > Rank(ns[k + 1]) {
        i := k + 1;
      }
    }
  }

  lemma {:induction false} ChosenAppend(a: seq<What>, b: seq<What>)
    requires a != [] && b != []
    ensures Chosen(a + b) == if Rank(Chosen(a)) <= Rank(Chosen(b)) then Chosen(a) else Chosen(b)
  {
    assert (a + b)[1..] == a[1..] + b;
    if |a| == 1 {
      assert a[1..] + b == b;
    } else {
      ChosenAppend(a[1..], b);
    }
  }

  lemma OneCause(f: Failure)
    ensures AllNodes([f]) == Nodes(f)
  {
    assert [f][1..] == [];
    assert Nodes(f) + [] == Nodes(f);
  }

  /** A node of no kind in front makes no difference. */
  lemma PlainInFront(ns: seq<What>)
    requires ns != []
    ensures Chosen([Plain] + ns) == Chosen(ns)
  {
    ChosenAppend([Plain], ns);
    LowestIsPlain(Chosen(ns));
  }

  lemma LowestIsPlain(w: What)
    ensures Rank(w) >= Rank(Plain) ==> w == Plain
  {
  }

  /** Wrapping an error, with whatever message, changes nothing that is reported but the message. */
  lemma WrappingKeepsVerdict(f: Failure, text: string)
    ensures Describe(Chosen(Nodes(Failure(Plain, text, [f])))) == Describe(Chosen(Nodes(f)))
  {
    OneCause(f);
    PlainInFront(Nodes(f));
  }

  /** The i-th part is the first of the highest-ranked. */
  ghost predicate FirstHighest(parts: seq<Failure>, i: nat) {
    && i < |parts|
    && (forall j :: 0 <= j < |parts| ==> Rank(Chosen(Nodes(parts[i]))) <= Rank(Chosen(Nodes(parts[j]))))
    && (forall j :: 0 <= j < i ==> Rank(Chosen(Nodes(parts[i]))) < Rank(Chosen(Nodes(parts[j]))))
  }

  lemma OneMorePart(parts: seq<Failure>, k: nat) returns (i: nat)
    requires |parts| > 1 && FirstHighest(parts[1..], k)
    ensures FirstHighest(parts, i)
    ensures i == if Rank(Chosen(Nodes(parts[0]))) <= Rank(Chosen(Nodes(parts[k + 1]))) then 0 else k + 1
  {
    assert forall j :: 1 <= j < |parts| ==> parts[j] == parts[1..][j - 1];
    i := if Rank(Chosen(Nodes(parts[0]))) <= Rank(Chosen(Nodes(parts[k + 1]))) then 0 else k + 1;
  }

  /** A join is reported as its highest-ranked part, the earlier of two equals. */
  lemma {:induction false} JoinIsItsHighestPart(parts: seq<Failure>, text: string) returns (i: nat)
    requires parts != []
    ensures FirstHighest(parts, i)
    ensures Describe(Chosen(Nodes(Failure(Plain, text, parts)))) == Describe(Chosen(Nodes(parts[i])))
  {
    i := HighestPart(parts);
    PlainInFront(AllNodes(parts));
  }

  lemma {:induction false} HighestPart(parts: seq<Failure>) returns (i: nat)
    requires parts != []
    ensures FirstHighest(parts, i) && AllNodes(parts) != [] && Chosen(AllNodes(parts)) == Chosen(Nodes(parts[i]))
    decreases |parts|
  {
    if |parts| == 1 {
      i := 0;
      OneCause(parts[0]);
      assert parts == [parts[0]];
    } else {
      var k := HighestPart(parts[1..]);
      ChosenAppend(Nodes(parts[0]), AllNodes(parts[1..]));
      i := OneMorePart(parts, k);
    }
  }

  /** The same errors with other messages. */
  predicate Retold(f: Failure, g: Failure) {
    f.what == g.what && |f.causes| == |g.causes| && forall i :: 0 <= i < |f.causes| ==> Retold(f.causes[i], g.causes[i])
  }

  /** No message text has a say in what is reported. */
  lemma {:induction false} TextHasNoSay(f: Failure, g: Failure)
    requires Retold(f, g)
    ensures Nodes(f) == Nodes(g)
    decreases f, 0
  {
    AllTextHasNoSay(f.causes, g.causes);
  }

  lemma {:induction false} AllTextHasNoSay(fs: seq<Failure>, gs: seq<Failure>)
    requires |fs| == |gs| && forall i :: 0 <= i < |fs| ==> Retold(fs[i], gs[i])
    ensures AllNodes(fs) == AllNodes(gs)
    decreases fs, 1
  {
    if fs != [] {
      TextHasNoSay(fs[0], gs[0]);
      AllTextHasNoSay(fs[1..], gs[1..]);
    }
  }
}
