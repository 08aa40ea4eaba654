/** The -seed flag: host[:port]@<node_id hex>, and the text that names a given seed. */
module Seeds {
  import opened Bytes
  import opened Hex
  import opened Wrappers
  import Decimal

  const DEFAULT_PORT: nat := 4433

  const NODE_ID_SIZE: nat := 32

  datatype Seed = Seed(host: string, port: nat, nodeId: bytes)

  datatype Error = NoPin | BadNodeId | BadPort

  // ---------------------------------------------------------------- finding characters

  /** The first index of c, -1 when there is none. */
  function Index(s: string, c: char): (i: int)
    ensures -1 <= i < |s|
    ensures i >= 0 ==> s[i] == c && c !in s[..i]
    ensures i < 0 ==> c !in s
  {
    if s == "" then -1
    else if s[0] == c then 0
    else
      var i := Index(s[1..], c);
      assert s == [s[0]] + s[1..];
      if i < 0 then -1
      else
        assert s[..i + 1] == [s[0]] + s[1..][..i];
        i + 1
  }

  /** The last index of c, -1 when there is none. */
  function LastIndex(s: string, c: char): (i: int)
    ensures -1 <= i < |s|
    ensures i >= 0 ==> s[i] == c && c !in s[i + 1..]
    ensures i < 0 ==> c !in s
  {
    if s == "" then -1
    else if s[|s| - 1] == c then
      assert s[|s|..] == "";
      |s| - 1
    else
      var init := s[..|s| - 1];
      assert s == init + [s[|s| - 1]];
      var i := LastIndex(init, c);
      assert i >= 0 ==> s[i + 1..] == init[i + 1..] + [s[|s| - 1]];
      i
  }

  lemma LastIndexIs(s: string, c: char, i: nat)
    requires i < |s| && s[i] == c && c !in s[i + 1..]
    ensures LastIndex(s, c) == i
  {
    var j := LastIndex(s, c);
    assert forall k :: i < k < |s| ==> s[k] == s[i + 1..][k - i - 1];
    assert j >= 0 ==> forall k :: j < k < |s| ==> s[k] == s[j + 1..][k - j - 1];
  }

  lemma IndexIs(s: string, c: char, i: nat)
    requires i < |s| && s[i] == c && c !in s[..i]
    ensures Index(s, c) == i
  {
    var j := Index(s, c);
    assert forall k :: 0 <= k < i ==> s[k] == s[..i][k];
    assert j >= 0 ==> forall k :: 0 <= k < j ==> s[k] == s[..j][k];
  }

  predicate IsBracket(c: char) {
    c == '[' || c == ']'
  }

  /** `strings.Trim(s, "[]")`. */
  function TrimBrackets(s: string): (r: string) {
    if s != "" && IsBracket(s[0]) then TrimBrackets(s[1..])
    else if s != "" && IsBracket(s[|s| - 1]) then TrimBrackets(s[..|s| - 1])
    else s
  }

  // ---------------------------------------------------------------- parsing

  datatype HostPort = HostPort(host: string, port: string)

  /** `net.SplitHostPort`: the port follows the last colon; a host in brackets may hold colons, any other
      may not; no other brackets. None stands for any of its errors. */
  function SplitHostPort(v: string): (r: Option<HostPort>) {
    var i := LastIndex(v, ':');
    if i < 0 then None
    else if v[0] == '[' then
      var end := Index(v, ']');
      if end < 0 || end + 1 != i then None
      else if '[' in v[1..] || ']' in v[end + 1..] then None
      else Some(HostPort(v[1..end], v[i + 1..]))
    else if ':' in v[..i] || '[' in v || ']' in v then None
    else Some(HostPort(v[..i], v[i + 1..]))
  }

  /** `strconv.ParseUint(s, 10, 16)`. */
  function ParsePort(s: string): (r: Option<nat>)
    ensures r.Some? ==> r.value < 0x10000
  {
    if s == "" || !Decimal.AllDigits(s) then None
    else
      var n: nat := Decimal.NatValue(s);
      if n < 0x10000 then Some(n) else None
  }

  /** `hostPort`: whatever SplitHostPort refuses is taken for a host without port. */
  function ParseHostPort(v: string): (r: Result<(string, nat), Error>)
    ensures r.Ok? ==> 1 <= r.value.1 <= 65535
  {
    match SplitHostPort(v)
    case None => Ok((TrimBrackets(v), DEFAULT_PORT))
    case Some(hp) =>
      match ParsePort(hp.port)
      case None => Err(BadPort)
      case Some(port) => if port == 0 then Err(BadPort) else Ok((hp.host, port))
  }

  /** `hex32`. */
  function ParseNodeId(text: string): (r: Option<bytes>)
    ensures r.Some? ==> |r.value| == NODE_ID_SIZE
  {
    match DecodeHex(text)
    case None => None
    case Some(raw) => if |raw| == NODE_ID_SIZE then Some(raw) else None
  }

  /** `parseSeed`. */
  function ParseSeed(v: string): (r: Result<Seed, Error>) {
    var at := LastIndex(v, '@');
    if at < 0 then Err(NoPin)
    else
      match ParseNodeId(v[at + 1..])
      case None => Err(BadNodeId)
      case Some(id) =>
        match ParseHostPort(v[..at])
        case Err(e) => Err(e)
        case Ok(hp) => Ok(Seed(hp.0, hp.1, id))
  }

  /** The repeatable flag: each good seed is appended, a bad one changes nothing. */
  class SeedList {
    var seeds: seq<Seed>

    constructor ()
      ensures seeds == []
    {
      seeds := [];
    }

    method Set(v: string) returns (err: Option<Error>)
      modifies this
      ensures match ParseSeed(v)
              case Ok(seed) => err == None && seeds == old(seeds) + [seed]
              case Err(e) => err == Some(e) && seeds == old(seeds)
    {
      var seed := ParseSeed(v);
      if seed.Err? {
        return Some(seed.error);
      }
      seeds := seeds + [seed.value];
      err := None;
    }
  }

  // ---------------------------------------------------------------- naming a seed

  /** A host in brackets when it holds a colon, the port unless it is the fleet's. */
  function HostText(host: string, port: nat): (s: string) {
    var h := if ':' in host then "[" + host + "]" else host;
    if port == DEFAULT_PORT then h else h + ":" + Decimal.PrintNat(port)
  }

  function SeedText(seed: Seed): (s: string) {
    HostText(seed.host, seed.port) + "@" + EncodeHex(seed.nodeId)
  }

  predicate BracketFree(s: string) {
    '[' !in s && ']' !in s
  }

  /** What may stand behind the last colon. */
  predicate IsPortText(s: string) {
    ':' !in s && BracketFree(s)
  }

  lemma DigitsArePortText(digits: string)
    requires Decimal.AllDigits(digits)
    ensures IsPortText(digits)
  {
  }

  lemma PortRoundTrip(port: nat)
    requires port < 0x10000
    ensures ParsePort(Decimal.PrintNat(port)) == Some(port)
  {
    Decimal.NatRoundTrip(port);
  }

  lemma PortOutOfRange(port: nat)
    requires port >= 0x10000
    ensures ParsePort(Decimal.PrintNat(port)) == None
  {
    Decimal.NatRoundTrip(port);
  }

  lemma {:induction false} TrimNothing(s: string)
    requires CleanEnds(s)
    ensures TrimBrackets(s) == s
  {
  }

  /** A bracketed host trims like the host. */
  lemma TrimAround(s: string)
    requires CleanEnds(s)
    ensures TrimBrackets("[" + s + "]") == s
  {
    assert ("[" + s + "]")[1..] == s + "]";
    assert (s + "]")[..|s|] == s;
    TrimNothing(s);
    if s == "" {
      assert (s + "]")[1..] == "";
    } else {
      assert (s + "]")[0] == s[0];
    }
  }

  lemma SplitPlain(host: string, digits: string)
    requires IsPortText(digits) && ':' !in host && BracketFree(host)
    ensures SplitHostPort(host + ":" + digits) == Some(HostPort(host, digits))
  {
    var v := host + ":" + digits;
    assert v[|host|] == ':' && v[|host| + 1..] == digits && v[..|host|] == host;
    LastIndexIs(v, ':', |host|);
    assert '[' !in v && ']' !in v;
    assert v[0] in v;
  }

  lemma SplitBracketed(host: string, digits: string)
    requires IsPortText(digits) && BracketFree(host)
    ensures SplitHostPort("[" + host + "]:" + digits) == Some(HostPort(host, digits))
  {
    var v, n := "[" + host + "]:" + digits, |host| + 2;
    BracketedParts(host, digits);
    LastIndexIs(v, ':', n);
    IndexIs(v, ']', n - 1);
  }

  lemma BracketedParts(host: string, digits: string)
    requires IsPortText(digits) && BracketFree(host)
    ensures var v, n := "[" + host + "]:" + digits, |host| + 2;
            && v[0] == '[' && v[n - 1] == ']' && v[n] == ':'
            && v[n + 1..] == digits && ':' !in digits
            && v[1..n - 1] == host && ']' !in v[..n - 1]
            && '[' !in v[1..] && ']' !in v[n..]
  {
    var v, n := "[" + host + "]:" + digits, |host| + 2;
    assert v[..n - 1] == "[" + host;
    assert v[1..] == host + "]:" + digits;
    assert v[n..] == ":" + digits;
  }

  /** host:port with a port is split at its port when the host has no brackets of its own. */
  lemma SplitWithPort(host: string, digits: string)
    requires IsPortText(digits) && BracketFree(host)
    ensures SplitHostPort((if ':' in host then "[" + host + "]" else host) + ":" + digits)
         == Some(HostPort(host, digits))
  {
    if ':' in host {
      SplitBracketed(host, digits);
      assert "[" + host + "]" + ":" + digits == "[" + host + "]:" + digits;
    } else {
      SplitPlain(host, digits);
    }
  }

  /** What SplitHostPort returns as host holds no brackets. */
  lemma SplitHostIsBracketFree(v: string)
    requires SplitHostPort(v).Some?
    ensures BracketFree(SplitHostPort(v).value.host)
  {
    var i := LastIndex(v, ':');
    if v[0] == '[' {
      var end := Index(v, ']');
      var host := v[1..end];
      assert forall k :: 0 <= k < |host| ==> host[k] == v[1..][k] && host[k] == v[..end][k + 1];
    } else {
      assert forall k :: 0 <= k < i ==> v[..i][k] == v[k];
    }
  }

  /** Without a port, nothing is split: the text is the host's alone. */
  lemma SplitWithoutPort(host: string)
    ensures SplitHostPort(if ':' in host then "[" + host + "]" else host) == None
  {
    if ':' in host {
      BracketedAlone(host);
    }
  }

  /** Names its host and port when read again. */
  ghost predicate HostReadsBack(host: string, port: nat) {
    ParseHostPort(HostText(host, port)) == Ok((host, port))
  }

  lemma PortTextParses(host: string, port: nat)
    requires BracketFree(host) && port != DEFAULT_PORT
    ensures ParseHostPort(HostText(host, port)) == if 1 <= port <= 65535 then Ok((host, port)) else Err(BadPort)
  {
    DigitsArePortText(Decimal.PrintNat(port));
    SplitWithPort(host, Decimal.PrintNat(port));
    if port <= 65535 {
      PortRoundTrip(port);
    } else {
      PortOutOfRange(port);
    }
  }

  lemma BracketedHostIsLost(host: string, port: nat)
    requires !BracketFree(host) && port != DEFAULT_PORT
    ensures !HostReadsBack(host, port)
  {
    var v := HostText(host, port);
    match SplitHostPort(v)
    case None =>
    case Some(hp) => SplitHostIsBracketFree(v);
  }

  predicate CleanEnds(host: string) {
    host == "" || (!IsBracket(host[0]) && !IsBracket(host[|host| - 1]))
  }

  /** A host and port read back exactly when the host has no brackets, or the port is the fleet's and
      the host neither begins nor ends with one. */
  lemma HostReadsBackExactly(host: string, port: nat)
    requires 1 <= port <= 65535
    ensures HostReadsBack(host, port) <==> BracketFree(host) || (port == DEFAULT_PORT && CleanEnds(host))
  {
    if port == DEFAULT_PORT {
      SplitWithoutPort(host);
      TrimEnds(host);
    } else if BracketFree(host) {
      PortTextParses(host, port);
    } else {
      BracketedHostIsLost(host, port);
    }
  }

  lemma TrimEnds(host: string)
    ensures TrimBrackets(if ':' in host then "[" + host + "]" else host) == host <==> CleanEnds(host)
  {
    if CleanEnds(host) {
      TrimNothing(host);
      TrimAround(host);
    } else {
      TrimmedEnds(if ':' in host then "[" + host + "]" else host);
    }
  }

  /** Nothing trimmed begins or ends with a bracket. */
  lemma {:induction false} TrimmedEnds(s: string)
    ensures CleanEnds(TrimBrackets(s))
    decreases |s|
  {
    if s != "" && IsBracket(s[0]) {
      TrimmedEnds(s[1..]);
    } else if s != "" && IsBracket(s[|s| - 1]) {
      TrimmedEnds(s[..|s| - 1]);
    }
  }

  /** A node_id's text: 64 hex characters, of either case. */
  predicate IsNodeIdText(id: string) {
    |id| == 64 && forall i :: 0 <= i < 64 ==> IsHex(id[i])
  }

  /** The bytes such a text names, two characters for each. */
  function NodeOf(id: string): (b: bytes)
    requires IsNodeIdText(id)
  {
    seq(32, k requires 0 <= k < 32 => HexValue(id[2 * k]) * 16 + HexValue(id[2 * k + 1]))
  }

  /** `hex32` takes 64 hex characters of either case and nothing else. */
  lemma NodeIdExactly(id: string)
    ensures ParseNodeId(id) == if IsNodeIdText(id) then Some(NodeOf(id)) else None
  {
    DecodesWhenHex(id);
    if IsNodeIdText(id) {
      DecodedByPairs(id);
      assert DecodeHex(id).value == NodeOf(id);
    }
  }

  lemma IdSplitOff(head: string, id: string)
    requires '@' !in id
    ensures var v := head + "@" + id; LastIndex(v, '@') == |head| && v[|head| + 1..] == id && v[..|head|] == head
  {
    var v := head + "@" + id;
    assert v[|head|] == '@' && v[|head| + 1..] == id && v[..|head|] == head;
    LastIndexIs(v, '@', |head|);
  }

  /** What is behind the last "@" must be a node_id, and what is before it a host and port; without an
      "@" nothing is a seed. */
  lemma SeedIsSplit(head: string, id: string)
    requires '@' !in id
    ensures '@' !in head ==> ParseSeed(head) == Err(NoPin)
    ensures ParseSeed(head + "@" + id) ==
            if !IsNodeIdText(id) then Err(BadNodeId)
            else
              match ParseHostPort(head)
              case Err(e) => Err(e)
              case Ok(hp) => Ok(Seed(hp.0, hp.1, NodeOf(id)))
  {
    NodeIdExactly(id);
    IdSplitOff(head, id);
    if LastIndex(head, '@') >= 0 {
      assert head[LastIndex(head, '@')] == '@';
    }
  }

  /** Digits, leading zeros or not, that make a port. */
  predicate IsPort(text: string) {
    text != "" && Decimal.AllDigits(text) && 1 <= Decimal.NatValue(text) <= 65535
  }

  /** Whatever the port, the fleet's own or another: a bracket-free host, in brackets when it holds a
      colon, with a port behind it is that host and that port; with anything else behind the colon it
      is refused. */
  lemma HostAndPort(host: string, port: string)
    requires BracketFree(host) && IsPortText(port)
    ensures ParseHostPort((if ':' in host then "[" + host + "]" else host) + ":" + port) ==
            if IsPort(port) then Ok((host, Decimal.NatValue(port))) else Err(BadPort)
  {
    SplitWithPort(host, port);
  }

  /** A host alone has the fleet's port: a bracket-free one, in brackets or not, that holds no colon, or
      several, or is in brackets. */
  lemma HostAlone(host: string)
    requires BracketFree(host)
    ensures ParseHostPort("[" + host + "]") == Ok((host, 4433))
    ensures ':' !in host ==> ParseHostPort(host) == Ok((host, 4433))
    ensures (exists i, j :: 0 <= i < j < |host| && host[i] == ':' && host[j] == ':') ==>
              ParseHostPort(host) == Ok((host, 4433))
  {
    EndsFree(host);
    TrimNothing(host);
    TrimAround(host);
    BracketedAlone(host);
    if i, j :| 0 <= i < j < |host| && host[i] == ':' && host[j] == ':' {
      SeveralColons(host, i, j);
    }
  }

  lemma EndsFree(host: string)
    requires BracketFree(host)
    ensures CleanEnds(host)
  {
    assert host != "" ==> host[0] in host && host[|host| - 1] in host;
  }

  lemma SeveralColons(host: string, i: nat, j: nat)
    requires BracketFree(host) && i < j < |host| && host[i] == ':' && host[j] == ':'
    ensures SplitHostPort(host) == None
  {
    var l := LastIndex(host, ':');
    assert l >= 0 ==> forall k :: l < k < |host| ==> host[k] == host[l + 1..][k - l - 1];
    assert host[..l][i] == ':';
    assert host[0] in host;
  }

  lemma BracketedAlone(host: string)
    ensures SplitHostPort("[" + host + "]") == None
  {
    var v := "[" + host + "]";
    var end, i := Index(v, ']'), LastIndex(v, ':');
    assert v[|v| - 1] == ']';
    if end + 1 == i && i >= 0 {
      assert v[end + 1..][|v| - 1 - (end + 1)] == ']';
    }
  }

  /** So a seed with its port written out, the fleet's or another, is that host, port and node. */
  lemma SeedWithPort(host: string, port: string, id: string)
    requires BracketFree(host) && IsPortText(port) && IsNodeIdText(id)
    ensures ParseSeed((if ':' in host then "[" + host + "]" else host) + ":" + port + "@" + id) ==
            if IsPort(port) then Ok(Seed(host, Decimal.NatValue(port), NodeOf(id))) else Err(BadPort)
  {
    HexHasNoAt(id);
    SeedIsSplit((if ':' in host then "[" + host + "]" else host) + ":" + port, id);
    HostAndPort(host, port);
  }

  lemma HexHasNoAt(id: string)
    requires IsNodeIdText(id)
    ensures '@' !in id
  {
  }

  /** The node_id is split off at the last "@", so one in the host does not matter. */
  lemma SeedTextParses(seed: Seed)
    requires |seed.nodeId| == NODE_ID_SIZE
    ensures ParseSeed(SeedText(seed)) ==
            match ParseHostPort(HostText(seed.host, seed.port))
            case Err(e) => Err(e)
            case Ok(hp) => Ok(Seed(hp.0, hp.1, seed.nodeId))
  {
    HexBytesRoundTrip(seed.nodeId);
    HexHasNo(seed.nodeId, '@');
    NodeIdExactly(EncodeHex(seed.nodeId));
    SeedIsSplit(HostText(seed.host, seed.port), EncodeHex(seed.nodeId));
  }

  /** A seed's text parses to the seed exactly when its host and port read back. */
  lemma SeedRoundTrip(seed: Seed)
    requires 1 <= seed.port <= 65535 && |seed.nodeId| == NODE_ID_SIZE
    ensures ParseSeed(SeedText(seed)) == Ok(seed) <==>
            BracketFree(seed.host) || (seed.port == DEFAULT_PORT && CleanEnds(seed.host))
  {
    SeedTextParses(seed);
    HostReadsBackExactly(seed.host, seed.port);
  }

  /** The host is in brackets of its own, and holds no others. */
  predicate InBrackets(host: string) {
    |host| >= 2 && host[0] == '[' && host[|host| - 1] == ']' && BracketFree(host[1..|host| - 1])
  }

  /** What is in the host's text with a port is split at the port. */
  predicate Splits(host: string) {
    BracketFree(host) || (':' !in host && InBrackets(host))
  }

  lemma InBracketsSplits(host: string, digits: string)
    requires IsPortText(digits) && InBrackets(host)
    ensures SplitHostPort(host + ":" + digits) == Some(HostPort(host[1..|host| - 1], digits))
  {
    var inner := host[1..|host| - 1];
    assert host == "[" + inner + "]";
    assert host + ":" + digits == "[" + inner + "]:" + digits;
    SplitBracketed(inner, digits);
  }

  lemma ColonHostSplits(host: string, digits: string)
    requires IsPortText(digits) && SplitHostPort("[" + host + "]:" + digits).Some?
    ensures BracketFree(host)
  {
    var v, n := "[" + host + "]:" + digits, |host| + 2;
    assert v[n] == ':' && v[n + 1..] == digits;
    LastIndexIs(v, ':', n);
    assert forall k :: 0 <= k < |host| ==> host[k] == v[..n - 1][k + 1] && host[k] == v[1..][k];
  }

  lemma PlainHostSplits(host: string, digits: string)
    requires IsPortText(digits) && ':' !in host && SplitHostPort(host + ":" + digits).Some?
    ensures BracketFree(host) || InBrackets(host)
  {
    var v, n := host + ":" + digits, |host|;
    assert v[n] == ':' && v[n + 1..] == digits;
    LastIndexIs(v, ':', n);
    assert forall k :: 0 <= k < n ==> host[k] == v[k];
    if v[0] == '[' {
      var end := Index(v, ']');
      assert end == n - 1;
      var inner := host[1..n - 1];
      assert forall k :: 0 <= k < |inner| ==> inner[k] == v[1..][k] && inner[k] == v[..end][k + 1];
    }
  }

  lemma SplitsExactly(host: string, digits: string)
    requires IsPortText(digits)
    ensures var r := SplitHostPort((if ':' in host then "[" + host + "]" else host) + ":" + digits);
            (r.Some? <==> Splits(host)) && (r.Some? ==> r.value.port == digits)
  {
    if BracketFree(host) {
      SplitWithPort(host, digits);
    } else if ':' in host {
      assert "[" + host + "]" + ":" + digits == "[" + host + "]:" + digits;
      if SplitHostPort("[" + host + "]:" + digits).Some? {
        ColonHostSplits(host, digits);
      }
    } else if InBrackets(host) {
      InBracketsSplits(host, digits);
    } else if SplitHostPort(host + ":" + digits).Some? {
      PlainHostSplits(host, digits);
    }
  }

  /** Port 0 and ports over 65535 are refused wherever a port is split off at all; otherwise the whole,
      bad port and all, is taken for a host of the fleet's port. */
  lemma BadPortIsRefused(host: string, port: nat, nodeId: bytes)
    requires |nodeId| == NODE_ID_SIZE && (port == 0 || port > 65535)
    ensures ParseSeed(SeedText(Seed(host, port, nodeId))) ==
            if Splits(host) then Err(BadPort) else Ok(Seed(TrimBrackets(HostText(host, port)), DEFAULT_PORT, nodeId))
  {
    SeedTextParses(Seed(host, port, nodeId));
    DigitsArePortText(Decimal.PrintNat(port));
    SplitsExactly(host, Decimal.PrintNat(port));
    if port == 0 {
      PortRoundTrip(port);
    } else {
      PortOutOfRange(port);
    }
  }

  ghost predicate OnlyBrackets(s: string) {
    forall i :: 0 <= i < |s| ==> IsBracket(s[i])
  }

  /** Trimming takes away all brackets at either end and nothing else. */
  lemma {:induction false} TrimExactly(s: string) returns (a: string, b: string)
    ensures s == a + TrimBrackets(s) + b && OnlyBrackets(a) && OnlyBrackets(b) && CleanEnds(TrimBrackets(s))
    decreases |s|
  {
    a, b := "", "";
    TrimmedEnds(s);
    if s != "" && IsBracket(s[0]) {
      a, b := TrimExactly(s[1..]);
      InFront(s, a, TrimBrackets(s), b);
      a := [s[0]] + a;
    } else if s != "" && IsBracket(s[|s| - 1]) {
      a, b := TrimExactly(s[..|s| - 1]);
      AtEnd(s, a, TrimBrackets(s), b);
      b := b + [s[|s| - 1]];
    } else {
      assert s == "" + s + "";
    }
  }

  lemma InFront(s: string, a: string, t: string, b: string)
    requires s != "" && s[1..] == a + t + b
    ensures s == [s[0]] + a + t + b
  {
    assert s == [s[0]] + s[1..];
  }

  lemma AtEnd(s: string, a: string, t: string, b: string)
    requires s != "" && s[..|s| - 1] == a + t + b
    ensures s == a + t + (b + [s[|s| - 1]])
  {
    assert s == s[..|s| - 1] + [s[|s| - 1]];
  }

  /** What is parsed pins a node and has a port. */
  lemma ParsedSeedIsPinned(v: string)
    requires ParseSeed(v).Ok?
    ensures var seed := ParseSeed(v).value; |seed.nodeId| == NODE_ID_SIZE && 1 <= seed.port <= 65535 && '@' in v
  {
    assert v[LastIndex(v, '@')] == '@';
  }
}
