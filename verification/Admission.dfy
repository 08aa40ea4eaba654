/** Waiting for a join session to be confirmed, and keeping the membership that comes of it. */
module Admission {
  import opened Bytes
  import opened Hex
  import opened Wrappers

  /** What the realm says of a session. */
  datatype Session = Session(status: string, token: Option<string>)

  datatype Answer = Answer(session: Session, failed: bool)

  predicate IsPending(a: Answer) {
    !a.failed && a.session.status == "pending"
  }

  /** Everything the wait does not decide: the realm's answers and how long they take, when the wait's
      parent is cancelled, how late a wake-up comes, and which of timer and context a select with both
      ready takes. Times count from the start, in the clock's smallest unit. */
  datatype World = World(
    answer: nat -> Answer,
    takes: nat -> nat,
    cancelled: Option<nat>,
    late: nat -> nat,
    timerFirst: nat -> bool)

  /** When the context with its timeout ends. */
  function End(world: World, wait: int): (t: int) {
    if world.cancelled.Some? && world.cancelled.value < wait then world.cancelled.value else wait
  }

  predicate Over(world: World, wait: int, now: nat) {
    now >= End(world, wait)
  }

  /** The k-th poll, begun at now: the realm's answer once it is there, or http's error at the end of the
      context when that comes first. */
  function Polled(world: World, wait: int, k: nat, now: nat): (a: Answer) {
    if Over(world, wait, now + world.takes(k)) then world.answer(k).(failed := true) else world.answer(k)
  }

  /** When that poll is over. */
  function PollEnd(world: World, wait: int, k: nat, now: nat): (t: nat)
    ensures now <= t <= now + world.takes(k)
  {
    if !Over(world, wait, now + world.takes(k)) then now + world.takes(k)
    else if End(world, wait) < now then now else End(world, wait)
  }

  /** When a select begun at now goes on: at the timer or at the context's end, whichever is first. */
  function Wake(world: World, wait: int, interval: nat, now: nat): (t: nat) {
    var timer, over := now + interval, End(world, wait);
    if over < timer then (if over < now then now else over) else timer
  }

  /** The time by which n polls and the waits behind them are over, unless the context ends. */
  function Spent(world: World, interval: nat, n: nat): (t: nat) {
    if n == 0 then 0 else Spent(world, interval, n - 1) + world.takes(n - 1) + interval + world.late(n - 1)
  }

  lemma {:induction false} SpentGrows(world: World, interval: nat, m: nat, n: nat)
    requires m <= n
    ensures Spent(world, interval, m) <= Spent(world, interval, n)
    decreases n
  {
    if m < n {
      SpentGrows(world, interval, m, n - 1);
    }
  }

  function CeilDiv(a: int, b: nat): (q: int)
    requires b > 0
  {
    (a + b - 1) / b
  }

  /** The first m answers are pending and the next one, a, is not. */
  ghost predicate ComesFirst(world: World, m: nat, a: Answer) {
    && (forall k :: 0 <= k < m ==> !world.answer(k).failed && world.answer(k).session.status == "pending")
    && a == world.answer(m) && (a.failed || a.session.status != "pending")
  }

  /** And with an interval behind each of them it is there before the context ends. */
  ghost predicate ComesInTime(world: World, wait: int, interval: nat, m: nat, a: Answer) {
    ComesFirst(world, m, a) && Spent(world, interval, m) + world.takes(m) < End(world, wait)
  }

  /** `waitAdmitted`: the last answer, after no more than ceil(wait / interval) + 1 polls. Every answer
      before it was pending. A poll fails on the context's account, and a pending answer is returned,
      only when the context has ended by the time the polls so far, each with an interval behind it,
      would have taken; so the first answer that is not pending is returned when it is there before
      the context's end. */
  method WaitAdmitted(world: World, wait: int, interval: nat) returns (a: Answer, polls: nat, now: nat)
    requires interval > 0
    ensures 1 <= polls <= (if wait <= 0 then 1 else CeilDiv(wait, interval) + 1)
    ensures forall k :: 0 <= k < polls - 1 ==> !world.answer(k).failed && world.answer(k).session.status == "pending"
    ensures a == world.answer(polls - 1)
            || (a == world.answer(polls - 1).(failed := true)
                && End(world, wait) <= Spent(world, interval, polls - 1) + world.takes(polls - 1))
    ensures IsPending(a) ==> End(world, wait) <= now <= Spent(world, interval, polls)
    ensures forall m: nat, first :: ComesInTime(world, wait, interval, m, first) ==> a == first && polls == m + 1
  {
    now := 0;
    polls := 0;
    while true
      invariant polls * interval <= now <= Spent(world, interval, polls)
      invariant polls > 0 ==> (polls - 1) * interval < wait
      invariant forall k :: 0 <= k < polls ==> IsPending(world.answer(k))
      decreases if now < wait then wait - now else 0
    {
      a := Polled(world, wait, polls, now);
      now := PollEnd(world, wait, polls, now);
      polls := polls + 1;
      if !IsPending(a) {
        break;
      }
      var asked := now;
      now := Wake(world, wait, interval, now) + world.late(polls - 1);
      var timerReady := now >= asked + interval;
      if Over(world, wait, now) && !(timerReady && world.timerFirst(polls - 1)) {
        break;
      }
      assert polls * interval == (polls - 1) * interval + interval;
    }
    PollsBounded(polls, wait, interval);
    FirstIsReturned(world, wait, interval, a, polls, now);
  }

  lemma FirstIsReturned(world: World, wait: int, interval: nat, a: Answer, polls: nat, now: nat)
    requires polls >= 1 && forall k :: 0 <= k < polls - 1 ==> IsPending(world.answer(k))
    requires a == world.answer(polls - 1)
             || (a == world.answer(polls - 1).(failed := true)
                 && End(world, wait) <= Spent(world, interval, polls - 1) + world.takes(polls - 1))
    requires IsPending(a) ==> End(world, wait) <= now <= Spent(world, interval, polls)
    ensures forall m: nat, first :: ComesInTime(world, wait, interval, m, first) ==> a == first && polls == m + 1
  {
    forall m: nat, first | ComesInTime(world, wait, interval, m, first)
      ensures a == first && polls == m + 1
    {
      if polls - 1 < m {
        SpentGrows(world, interval, polls, m);
      }
    }
  }

  /** All but the last two polls leave an interval behind them before the wait is over. */
  lemma PollsBounded(polls: nat, wait: int, interval: nat)
    requires interval > 0 && polls >= 1 && (polls >= 2 ==> (polls - 2) * interval < wait)
    ensures polls <= if wait <= 0 then 1 else CeilDiv(wait, interval) + 1
  {
    if polls >= 2 {
      var q := CeilDiv(wait, interval);
      assert q * interval >= wait;
      if q <= polls - 2 {
        MulMonotone(q, polls - 2, interval);
      }
    }
  }

  lemma MulMonotone(a: int, b: int, c: nat)
    requires a <= b
    ensures a * c <= b * c
  {
  }

  // ---------------------------------------------------------------- where a membership is kept

  predicate NoSlash(s: string) {
    '/' !in s
  }

  /** `strings.Split(s, sep)` for one character. */
  function SplitAt(s: string, sep: char): (parts: seq<string>)
    ensures parts != []
  {
    if s == "" then [""]
    else
      var rest := SplitAt(s[1..], sep);
      if s[0] == sep then [""] + rest else [[s[0]] + rest[0]] + rest[1..]
  }

  lemma {:induction false} SplitWhole(s: string, sep: char)
    requires sep !in s
    ensures SplitAt(s, sep) == [s]
  {
    if s != "" {
      SplitWhole(s[1..], sep);
      assert [s[0]] + s[1..] == s;
    }
  }

  lemma {:induction false} SplitAppend(a: string, sep: char, b: string)
    requires sep !in a
    ensures SplitAt(a + [sep] + b, sep) == [a] + SplitAt(b, sep)
  {
    var s := a + [sep] + b;
    if a == "" {
      assert s[1..] == b;
    } else {
      assert s[1..] == a[1..] + [sep] + b;
      SplitAppend(a[1..], sep, b);
      assert [a[0]] + a[1..] == a;
      assert ([a[1..]] + SplitAt(b, sep))[1..] == SplitAt(b, sep);
    }
  }

  /** `filepath.Clean` on one more part of a path: "" and "." say nothing, ".." takes back the part
      before it, and at the root nothing. */
  function CleanPart(rooted: bool, done: seq<string>, p: string): (path: seq<string>) {
    if p == "" || p == "." then done
    else if p != ".." then done + [p]
    else if done != [] && done[|done| - 1] != ".." then done[..|done| - 1]
    else if rooted then done
    else done + [".."]
  }

  function Clean(rooted: bool, done: seq<string>, parts: seq<string>): (path: seq<string>)
    decreases |parts|
  {
    if parts == [] then done else Clean(rooted, CleanPart(rooted, done, parts[0]), parts[1..])
  }

  /** A part that Clean keeps. */
  predicate IsName(p: string) {
    p != "" && p != "." && p != ".."
  }

  /** `membershipPath`, as the parts of the cleaned path: the person key's directory, "person", the
      person's id in hex, and the realm's name with ".ucan", which may hold slashes of its own. */
  function MembershipPath(rooted: bool, keyDir: seq<string>, person: bytes, realm: string): (path: seq<string>) {
    Clean(rooted, [], keyDir + ["person", EncodeHex(person)] + RealmParts(realm))
  }

  lemma {:induction false} CleanNames(rooted: bool, done: seq<string>, parts: seq<string>)
    requires forall i :: 0 <= i < |parts| ==> IsName(parts[i])
    ensures Clean(rooted, done, parts) == done + parts
    decreases |parts|
  {
    if parts != [] {
      CleanNames(rooted, done + [parts[0]], parts[1..]);
      assert done + [parts[0]] + parts[1..] == done + parts;
    } else {
      assert done + parts == done;
    }
  }

  lemma {:induction false} CleanAppend(rooted: bool, done: seq<string>, a: seq<string>, b: seq<string>)
    ensures Clean(rooted, done, a + b) == Clean(rooted, Clean(rooted, done, a), b)
    decreases |a|
  {
    if a == [] {
      assert a + b == b;
    } else {
      assert (a + b)[1..] == a[1..] + b && (a + b)[0] == a[0];
      CleanAppend(rooted, CleanPart(rooted, done, a[0]), a[1..], b);
    }
  }

  lemma HexIsName(person: bytes)
    requires |person| == 32
    ensures IsName(EncodeHex(person))
  {
  }

  ghost predicate AllNames(parts: seq<string>) {
    forall i :: 0 <= i < |parts| ==> IsName(parts[i])
  }

  /** ".." and nothing else up to n, and only names behind. */
  ghost predicate IsCleaned(path: seq<string>, n: nat) {
    n <= |path| && (forall i :: 0 <= i < n ==> path[i] == "..") && AllNames(path[n..])
  }

  /** A cleaned path goes up before it goes down, and from the root it does not go up at all. */
  lemma {:induction false} CleanedForm(rooted: bool, done: seq<string>, parts: seq<string>, n: nat) returns (m: nat)
    requires IsCleaned(done, n) && (rooted ==> n == 0)
    ensures IsCleaned(Clean(rooted, done, parts), m) && (rooted ==> m == 0)
    decreases |parts|
  {
    m := n;
    if parts != [] {
      var next := CleanPart(rooted, done, parts[0]);
      var k := CleanedPart(rooted, done, parts[0], n);
      m := CleanedForm(rooted, next, parts[1..], k);
    }
  }

  lemma CleanedPart(rooted: bool, done: seq<string>, p: string, n: nat) returns (k: nat)
    requires IsCleaned(done, n) && (rooted ==> n == 0)
    ensures IsCleaned(CleanPart(rooted, done, p), k) && (rooted ==> k == 0)
  {
    var next := CleanPart(rooted, done, p);
    k := n;
    if p == ".." {
      if n == |done| && !rooted {
        k := n + 1;
      } else if n < |done| {
        assert done[|done| - 1] == done[n..][|done| - 1 - n];
        assert next[n..] == done[n..][..|done| - 1 - n];
      }
    } else if IsName(p) {
      assert next[n..] == done[n..] + [p];
    }
  }

  /** The parts of the file's name in the person's directory. */
  function RealmParts(realm: string): (parts: seq<string>) {
    SplitAt(realm + ".ucan", '/')
  }

  /** What is left of the realm's parts when they stay below the person's directory. */
  function RealmPath(realm: string): (path: seq<string>) {
    Clean(true, [], RealmParts(realm))
  }

  function PersonDir(rooted: bool, keyDir: seq<string>, person: bytes): (path: seq<string>) {
    Clean(rooted, [], keyDir) + ["person"] + [EncodeHex(person)]
  }

  lemma PathFromDir(rooted: bool, keyDir: seq<string>, person: bytes, realm: string)
    requires |person| == 32
    ensures MembershipPath(rooted, keyDir, person, realm)
         == Clean(rooted, PersonDir(rooted, keyDir, person), RealmParts(realm))
  {
    HexIsName(person);
    var tail := ["person", EncodeHex(person)];
    CleanAppend(rooted, [], keyDir + tail, RealmParts(realm));
    CleanAppend(rooted, [], keyDir, tail);
    CleanNames(rooted, Clean(rooted, [], keyDir), tail);
    assert Clean(rooted, [], keyDir) + tail == PersonDir(rooted, keyDir, person);
  }

  lemma HexInjective(a: bytes, b: bytes)
    requires EncodeHex(a) == EncodeHex(b)
    ensures a == b
  {
    HexBytesRoundTrip(a);
    HexBytesRoundTrip(b);
  }

  /** Some ".." among parts takes back more than the names before it put there. */
  predicate Climbs(depth: nat, parts: seq<string>)
    decreases |parts|
  {
    if parts == [] then false
    else if parts[0] == "" || parts[0] == "." then Climbs(depth, parts[1..])
    else if parts[0] == ".." then depth == 0 || Climbs(depth - 1, parts[1..])
    else Climbs(depth + 1, parts[1..])
  }

  /** Parts that do not climb stay below where they begin. */
  lemma {:induction false} StaysBelow(rooted: bool, base: seq<string>, done: seq<string>, parts: seq<string>)
    requires AllNames(done) && !Climbs(|done|, parts)
    ensures Clean(rooted, base + done, parts) == base + Clean(true, done, parts)
    decreases |parts|
  {
    if parts != [] {
      var next := CleanPart(true, done, parts[0]);
      assert CleanPart(rooted, base + done, parts[0]) == base + next;
      StaysBelow(rooted, base, next, parts[1..]);
    }
  }

  /** Parts that climb leave the directory they begin in, whatever its name. */
  lemma {:induction false} ClimbForgets(
      rooted: bool, base: seq<string>, x: string, y: string, done: seq<string>, parts: seq<string>)
    requires IsName(x) && IsName(y) && AllNames(done) && Climbs(|done|, parts)
    ensures Clean(rooted, base + [x] + done, parts) == Clean(rooted, base + [y] + done, parts)
    decreases |parts|
  {
    var next := CleanPart(true, done, parts[0]);
    if parts[0] == ".." && done == [] {
      assert CleanPart(rooted, base + [x] + done, "..") == base == CleanPart(rooted, base + [y] + done, "..");
    } else {
      assert CleanPart(rooted, base + [x] + done, parts[0]) == base + [x] + next;
      assert CleanPart(rooted, base + [y] + done, parts[0]) == base + [y] + next;
      ClimbForgets(rooted, base, x, y, next, parts[1..]);
    }
  }

  lemma PathBelow(rooted: bool, keyDir: seq<string>, person: bytes, realm: string)
    requires |person| == 32 && !Climbs(0, RealmParts(realm))
    ensures MembershipPath(rooted, keyDir, person, realm) == PersonDir(rooted, keyDir, person) + RealmPath(realm)
  {
    PathFromDir(rooted, keyDir, person, realm);
    StaysBelow(rooted, PersonDir(rooted, keyDir, person), [], RealmParts(realm));
    assert PersonDir(rooted, keyDir, person) + [] == PersonDir(rooted, keyDir, person);
  }

  /** Among realm names that do not climb, two memberships share a file exactly when they are the same
      person's and the names clean to the same. */
  lemma SharedExactly(rooted: bool, keyDir: seq<string>, p: bytes, r: string, q: bytes, s: string)
    requires |p| == 32 && |q| == 32 && !Climbs(0, RealmParts(r)) && !Climbs(0, RealmParts(s))
    ensures MembershipPath(rooted, keyDir, p, r) == MembershipPath(rooted, keyDir, q, s) <==>
            p == q && RealmPath(r) == RealmPath(s)
  {
    PathBelow(rooted, keyDir, p, r);
    PathBelow(rooted, keyDir, q, s);
    var a, b := MembershipPath(rooted, keyDir, p, r), MembershipPath(rooted, keyDir, q, s);
    var n := |Clean(rooted, [], keyDir)|;
    assert a[n + 1] == EncodeHex(p) && b[n + 1] == EncodeHex(q);
    assert a[n + 2..] == RealmPath(r) && b[n + 2..] == RealmPath(s);
    if a == b {
      HexInjective(p, q);
    }
  }

  /** Two persons share their file of a realm exactly when the realm's name climbs out of the person's
      directory. */
  lemma PersonsShareExactly(rooted: bool, keyDir: seq<string>, p: bytes, q: bytes, realm: string)
    requires |p| == 32 && |q| == 32 && p != q
    ensures MembershipPath(rooted, keyDir, p, realm) == MembershipPath(rooted, keyDir, q, realm) <==>
            Climbs(0, RealmParts(realm))
  {
    if Climbs(0, RealmParts(realm)) {
      HexIsName(p);
      HexIsName(q);
      PathFromDir(rooted, keyDir, p, realm);
      PathFromDir(rooted, keyDir, q, realm);
      var base := Clean(rooted, [], keyDir) + ["person"];
      ClimbForgets(rooted, base, EncodeHex(p), EncodeHex(q), [], RealmParts(realm));
      assert base + [EncodeHex(p)] + [] == base + [EncodeHex(p)] && base + [EncodeHex(q)] + [] == base + [EncodeHex(q)];
    } else {
      SharedExactly(rooted, keyDir, p, realm, q, realm);
    }
  }

  /** Such names there are: under "../" before any name, everybody has the same file. */
  lemma PersonsShare(rooted: bool, keyDir: seq<string>, p: bytes, q: bytes, realm: string)
    requires |p| == 32 && |q| == 32
    ensures MembershipPath(rooted, keyDir, p, "../" + realm) == MembershipPath(rooted, keyDir, q, "../" + realm)
  {
    assert "../" + realm + ".ucan" == ".." + ['/'] + (realm + ".ucan");
    SplitAppend("..", '/', realm + ".ucan");
    if p != q {
      PersonsShareExactly(rooted, keyDir, p, q, "../" + realm);
    }
  }

  lemma {:induction false} NamesDoNotClimb(depth: nat, parts: seq<string>)
    requires AllNames(parts)
    ensures !Climbs(depth, parts)
    decreases |parts|
  {
    if parts != [] {
      NamesDoNotClimb(depth + 1, parts[1..]);
    }
  }

  lemma SplitNotEmpty(s: string, sep: char)
    requires s != ""
    ensures SplitAt(s, sep) != [""]
  {
    var rest := SplitAt(s[1..], sep);
    if s[0] == sep {
      assert |[""] + rest| > 1;
    } else {
      assert ([[s[0]] + rest[0]] + rest[1..])[0] != "";
    }
  }

  lemma {:induction false} SplitInjective(s: string, t: string, sep: char)
    requires SplitAt(s, sep) == SplitAt(t, sep)
    ensures s == t
  {
    if s != "" {
      SplitNotEmpty(s, sep);
    }
    if t != "" {
      SplitNotEmpty(t, sep);
    }
    if s != "" && t != "" {
      SplitHeads(s, t, sep);
      SplitInjective(s[1..], t[1..], sep);
      assert s == [s[0]] + s[1..] && t == [t[0]] + t[1..];
    }
  }

  lemma SplitHeads(s: string, t: string, sep: char)
    requires s != "" && t != "" && SplitAt(s, sep) == SplitAt(t, sep)
    ensures s[0] == t[0] && SplitAt(s[1..], sep) == SplitAt(t[1..], sep)
  {
    var a, b, c := SplitAt(s[1..], sep), SplitAt(t[1..], sep), SplitAt(s, sep);
    assert (s[0] == sep) == (c[0] == "") == (t[0] == sep);
    if s[0] == sep {
      assert a == c[1..] == b;
    } else {
      assert a[0] == c[0][1..] == b[0] && a[1..] == c[1..] == b[1..];
      assert a == [a[0]] + a[1..] && b == [b[0]] + b[1..];
    }
  }

  /** Under realm names made of ordinary names, with slashes or without, no two memberships share a
      file. */
  lemma PathsAreApart(rooted: bool, keyDir: seq<string>, p: bytes, r: string, q: bytes, s: string)
    requires |p| == 32 && |q| == 32 && AllNames(RealmParts(r)) && AllNames(RealmParts(s))
    requires MembershipPath(rooted, keyDir, p, r) == MembershipPath(rooted, keyDir, q, s)
    ensures p == q && r == s
  {
    NamesDoNotClimb(0, RealmParts(r));
    NamesDoNotClimb(0, RealmParts(s));
    SharedExactly(rooted, keyDir, p, r, q, s);
    CleanNames(true, [], RealmParts(r));
    CleanNames(true, [], RealmParts(s));
    assert [] + RealmParts(r) == RealmParts(r) && [] + RealmParts(s) == RealmParts(s);
    SplitInjective(r + ".ucan", s + ".ucan", '/');
    assert r == (r + ".ucan")[..|r|] && s == (s + ".ucan")[..|s|];
    assert |r| == |s|;
  }

  /** A name without slashes is one such, and its file lies in the person's directory. */
  lemma PathOfPlainRealm(rooted: bool, keyDir: seq<string>, person: bytes, realm: string)
    requires |person| == 32 && NoSlash(realm)
    ensures AllNames(RealmParts(realm))
    ensures MembershipPath(rooted, keyDir, person, realm)
         == Clean(rooted, [], keyDir) + ["person", EncodeHex(person), realm + ".ucan"]
  {
    SplitWhole(realm + ".ucan", '/');
    NamesDoNotClimb(0, RealmParts(realm));
    PathBelow(rooted, keyDir, person, realm);
    CleanNames(true, [], RealmParts(realm));
  }

  /** Other names with slashes may: every name has another one for the same person's same file. */
  lemma SlashedNameShares(rooted: bool, keyDir: seq<string>, person: bytes, realm: string)
    requires |person| == 32
    ensures MembershipPath(rooted, keyDir, person, "x/../" + realm) == MembershipPath(rooted, keyDir, person, realm)
    ensures "x/../" + realm != realm
  {
    var name := realm + ".ucan";
    var head := keyDir + ["person", EncodeHex(person)];
    assert "x/../" + realm + ".ucan" == "x" + ['/'] + (".." + ['/'] + name);
    SplitAppend("x", '/', ".." + ['/'] + name);
    SplitAppend("..", '/', name);
    var tail := SplitAt(name, '/');
    CleanAppend(rooted, [], head, tail);
    CleanAppend(rooted, [], head, ["x"] + ([".."] + tail));
    var done := Clean(rooted, [], head);
    assert (["x"] + ([".."] + tail))[1..] == [".."] + tail && ([".."] + tail)[1..] == tail;
    assert (done + ["x"])[..|done|] == done;
    assert |"x/../" + realm| == |realm| + 5;
  }

  // ---------------------------------------------------------------- keeping it

  /** Two seconds, in milliseconds. */
  const POLL_INTERVAL: nat := 2000

  /** The parts of a token this program reads. */
  datatype Claims = Claims(aud: string, exp: int)

  datatype Error = PollFailed | NotConfirmed | NoToken | NotThreeParts | BadClaims | ForAnother | NotWritten

  /** `readClaims`; what base64url and JSON make of the middle part is decode's answer. */
  function ReadClaims(token: string, decode: string -> Option<Claims>): (r: Result<Claims, Error>) {
    var parts := SplitAt(token, '.');
    if |parts| != 3 then Err(NotThreeParts)
    else
      match decode(parts[1])
      case None => Err(BadClaims)
      case Some(c) => Ok(c)
  }

  predicate IsToken(token: string, a: string, b: string, c: string) {
    token == a + "." + b + "." + c && '.' !in a && '.' !in b && '.' !in c
  }

  /** token has three parts between dots, and the middle one decodes to c. */
  ghost predicate Says(token: string, decode: string -> Option<Claims>, c: Claims) {
    exists x, y, z :: IsToken(token, x, y, z) && decode(y) == Some(c)
  }

  /** Parts put together again, with sep between. */
  function Joined(parts: seq<string>, sep: char): (s: string)
    requires parts != []
  {
    if |parts| == 1 then parts[0] else parts[0] + [sep] + Joined(parts[1..], sep)
  }

  lemma {:induction false} SplitParts(s: string, sep: char)
    ensures Joined(SplitAt(s, sep), sep) == s
    ensures forall i :: 0 <= i < |SplitAt(s, sep)| ==> sep !in SplitAt(s, sep)[i]
  {
    if s != "" {
      var rest := SplitAt(s[1..], sep);
      SplitParts(s[1..], sep);
      assert s == [s[0]] + s[1..];
      if s[0] == sep {
        assert ([""] + rest)[1..] == rest;
        assert SplitAt(s, sep) == [""] + rest;
      } else {
        LongerFirst(s[0], rest, sep);
        assert SplitAt(s, sep) == [[s[0]] + rest[0]] + rest[1..];
      }
    }
  }

  lemma LongerFirst(c: char, rest: seq<string>, sep: char)
    requires rest != []
    ensures Joined([[c] + rest[0]] + rest[1..], sep) == [c] + Joined(rest, sep)
  {
    assert ([[c] + rest[0]] + rest[1..])[1..] == rest[1..];
    if |rest| > 1 {
      assert [c] + rest[0] + [sep] + Joined(rest[1..], sep) == [c] + (rest[0] + [sep] + Joined(rest[1..], sep));
    }
  }

  lemma Dots(a: string, b: string, c: string)
    ensures a + ['.'] + (b + ['.'] + c) == a + "." + b + "." + c
  {
  }

  lemma TokenIsSplit(token: string, a: string, b: string, c: string)
    requires IsToken(token, a, b, c)
    ensures SplitAt(token, '.') == [a, b, c]
  {
    SplitWhole(c, '.');
    SplitAppend(b, '.', c);
    SplitAppend(a, '.', b + ['.'] + c);
    Dots(a, b, c);
  }

  lemma SplitIsToken(token: string)
    requires |SplitAt(token, '.')| == 3
    ensures var p := SplitAt(token, '.'); IsToken(token, p[0], p[1], p[2])
  {
    var p := SplitAt(token, '.');
    SplitParts(token, '.');
    assert p[1..] == [p[1], p[2]] && [p[1], p[2]][1..] == [p[2]];
    assert Joined([p[1], p[2]], '.') == p[1] + ['.'] + Joined([p[2]], '.');
    Dots(p[0], p[1], p[2]);
    assert Joined(p, '.') == p[0] + ['.'] + (p[1] + ['.'] + p[2]);
  }

  /** Claims are read from exactly the tokens of three parts, and out of the middle one. */
  lemma ClaimsExactly(token: string, decode: string -> Option<Claims>, c: Claims)
    ensures ReadClaims(token, decode) == Ok(c) <==> Says(token, decode, c)
    ensures ReadClaims(token, decode) == Err(NotThreeParts) <==> !exists x, y, z :: IsToken(token, x, y, z)
  {
    if |SplitAt(token, '.')| == 3 {
      SplitIsToken(token);
    }
    if x, y, z :| IsToken(token, x, y, z) {
      TokenIsSplit(token, x, y, z);
    }
    if x, y, z :| IsToken(token, x, y, z) && decode(y) == Some(c) {
      TokenIsSplit(token, x, y, z);
    }
  }

  /** A confirmed answer whose token says it is for this person. */
  ghost predicate Grants(a: Answer, person: bytes, decode: string -> Option<Claims>) {
    && IsConfirmed(a) && HasToken(a)
    && exists c :: Says(a.session.token.value, decode, c) && c.aud == EncodeHex(person)
  }

  predicate IsConfirmed(a: Answer) {
    !a.failed && a.session.status == "confirmed"
  }

  predicate HasToken(a: Answer) {
    a.session.token.Some? && a.session.token.value != ""
  }

  lemma GrantsAsRead(a: Answer, person: bytes, decode: string -> Option<Claims>)
    requires IsConfirmed(a) && HasToken(a)
    ensures var r := ReadClaims(a.session.token.value, decode);
            Grants(a, person, decode) <==> r.Ok? && r.value.aud == EncodeHex(person)
  {
    var r := ReadClaims(a.session.token.value, decode);
    if r.Ok? {
      ClaimsExactly(a.session.token.value, decode, r.value);
    }
    if c :| Says(a.session.token.value, decode, c) && c.aud == EncodeHex(person) {
      ClaimsExactly(a.session.token.value, decode, c);
    }
  }

  /** The files a process sees, by path. */
  class Files {
    var content: map<seq<string>, string>

    constructor ()
      ensures content == map[]
    {
      content := map[];
    }

    /** writePrivate seen from its caller: all of data, or nothing. */
    method WritePrivate(path: seq<string>, data: string, fails: bool) returns (ok: bool)
      modifies this
      ensures ok == !fails
      ensures content == if ok then old(content)[path := data] else old(content)
    {
      ok := !fails;
      if ok {
        content := content[path := data];
      }
    }
  }

  /** `awaitMembership`: the one file is written, as the token and a line end, exactly when the last
      answer was confirmed with a three-part token for this person and writing works; nothing else is
      ever touched. */
  method AwaitMembership(
      world: World, wait: int, files: Files, person: bytes, rooted: bool, keyDir: seq<string>, realm: string,
      decode: string -> Option<Claims>, writeFails: bool)
    returns (r: Result<(seq<string>, int), Error>, last: Answer, polls: nat)
    requires |person| == 32
    modifies files
    ensures polls >= 1
    ensures forall k :: 0 <= k < polls - 1 ==> !world.answer(k).failed && world.answer(k).session.status == "pending"
    ensures forall m: nat, first :: ComesInTime(world, wait, 2000, m, first) ==> last == first && polls == m + 1
    ensures last == world.answer(polls - 1) || last == world.answer(polls - 1).(failed := true)
    ensures r.Ok? <==> Grants(last, person, decode) && !writeFails
    ensures r.Ok? ==>
              && r.value.0 == MembershipPath(rooted, keyDir, person, realm)
              && (exists c :: Says(last.session.token.value, decode, c) && r.value.1 == c.exp)
              && files.content == old(files.content)[r.value.0 := last.session.token.value + "\n"]
    ensures r.Err? ==> files.content == old(files.content)
    ensures r == Err(PollFailed) <==> last.failed
    ensures r == Err(NotConfirmed) <==> !last.failed && last.session.status != "confirmed"
    ensures r == Err(NoToken) <==> IsConfirmed(last) && !HasToken(last)
    ensures r == Err(NotWritten) <==> Grants(last, person, decode) && writeFails
  {
    var now;
    last, polls, now := WaitAdmitted(world, wait, POLL_INTERVAL);
    if last.failed {
      return Err(PollFailed), last, polls;
    }
    if last.session.status != "confirmed" {
      return Err(NotConfirmed), last, polls;
    }
    if last.session.token.None? || last.session.token.value == "" {
      return Err(NoToken), last, polls;
    }
    var token := last.session.token.value;
    var claims := ReadClaims(token, decode);
    GrantsAsRead(last, person, decode);
    if claims.Ok? {
      ClaimsExactly(token, decode, claims.value);
    }
    if claims.Err? {
      return Err(claims.error), last, polls;
    }
    if claims.value.aud != EncodeHex(person) {
      return Err(ForAnother), last, polls;
    }
    var path := MembershipPath(rooted, keyDir, person, realm);
    var written := files.WritePrivate(path, token + "\n", writeFails);
    if !written {
      return Err(NotWritten), last, polls;
    }
    r := Ok((path, claims.value.exp));
  }
}
