/** JSON text to tree: a recursive-descent reader for the language of RFC 8259, giving what
    encoding/json's decoder gives for an `any` with UseNumber. A number keeps its literal, an object
    is a map in which the last of equal keys wins, and nesting stops at the decoder's limit. */
module JsonReader {
  import opened JsonText

  datatype Json =
    | Null
    | Bool(b: bool)
    | Number(literal: string)
    | String(text: string)
    | Array(items: seq<Json>)
    | Object(members: map<string, Json>)

  datatype Member = Member(key: string, value: Json)

  /** How many arrays and objects may be open at once. */
  const MAX_DEPTH: nat := 10000

  predicate StartsWith(s: string, c: char) {
    s != "" && s[0] == c
  }

  predicate HasPrefix(s: string, p: string) {
    |p| <= |s| && s[..|p|] == p
  }

  /** A name or a number at the very head of s. */
  function Simple(s: string): (r: Scan<Json>)
    ensures r.Got? ==> |r.rest| < |s| && !r.value.Array? && !r.value.Object?
  {
    if HasPrefix(s, "null") then Got(Null, s[4..])
    else if HasPrefix(s, "true") then Got(Bool(true), s[4..])
    else if HasPrefix(s, "false") then Got(Bool(false), s[5..])
    else
      var n := NumberPart(s);
      if n < 0 then Fail else Got(Number(s[..n]), s[n..])
  }

  /** One value at the very head of s, with room for depth open arrays and objects. */
  function Value(s: string, depth: nat): (r: Scan<Json>)
    ensures r.Got? ==> |r.rest| < |s| && Fits(r.value, depth)
    decreases |s|, 0
  {
    if s == "" then Fail
    else if s[0] == '"' then
      match ScanString(s[1..])
      case Fail => Fail
      case Got(text, rest) => Got(String(text), rest)
    else if s[0] == '[' then
      if depth == 0 then Fail
      else
        var inner := SkipSpace(s[1..]);
        if StartsWith(inner, ']') then Got(Array([]), inner[1..])
        else
          match Items(inner, depth - 1)
          case Fail => Fail
          case Got(items, rest) => Got(Array(items), rest)
    else if s[0] == '{' then
      if depth == 0 then Fail
      else
        var inner := SkipSpace(s[1..]);
        if StartsWith(inner, '}') then Got(Object(map[]), inner[1..])
        else
          match Members(inner, depth - 1)
          case Fail => Fail
          case Got(members, rest) => Got(Object(LastWins(members)), rest)
    else Simple(s)
  }

  /** The items of an array from the first one on, up to and including the closing bracket. */
  function Items(s: string, depth: nat): (r: Scan<seq<Json>>)
    ensures r.Got? ==> |r.rest| < |s| && forall i :: 0 <= i < |r.value| ==> Fits(r.value[i], depth)
    decreases |s|, 1
  {
    match Value(s, depth)
    case Fail => Fail
    case Got(item, rest) =>
      var next := SkipSpace(rest);
      if StartsWith(next, ']') then Got([item], next[1..])
      else if StartsWith(next, ',') then
        match Items(SkipSpace(next[1..]), depth)
        case Fail => Fail
        case Got(items, after) => Got([item] + items, after)
      else Fail
  }

  /** A key, a colon and a value. */
  function OneMember(s: string, depth: nat): (r: Scan<Member>)
    ensures r.Got? ==> |r.rest| < |s| && Fits(r.value.value, depth)
    decreases |s|, 1
  {
    if !StartsWith(s, '"') then Fail
    else
      match ScanString(s[1..])
      case Fail => Fail
      case Got(key, colon) =>
        var afterKey := SkipSpace(colon);
        if !StartsWith(afterKey, ':') then Fail
        else
          match Value(SkipSpace(afterKey[1..]), depth)
          case Fail => Fail
          case Got(value, rest) => Got(Member(key, value), rest)
  }

  /** The members of an object from the first key on, up to and including the closing brace. */
  function Members(s: string, depth: nat): (r: Scan<seq<Member>>)
    ensures r.Got? ==> |r.rest| < |s| && forall i :: 0 <= i < |r.value| ==> Fits(r.value[i].value, depth)
    decreases |s|, 2
  {
    match OneMember(s, depth)
    case Fail => Fail
    case Got(member, rest) =>
      var next := SkipSpace(rest);
      if StartsWith(next, '}') then Got([member], next[1..])
      else if StartsWith(next, ',') then
        match Members(SkipSpace(next[1..]), depth)
        case Fail => Fail
        case Got(members, after) => Got([member] + members, after)
      else Fail
  }

  /** Members put into a map one after another. */
  function LastWins(members: seq<Member>): (m: map<string, Json>)
    ensures forall k :: k in m ==> Member(k, m[k]) in members
  {
    if members == [] then map[]
    else
      var last := members[|members| - 1];
      LastWins(members[..|members| - 1])[last.key := last.value]
  }

  /** No more than depth arrays and objects inside one another. */
  predicate Fits(n: Json, depth: nat) {
    match n
    case Array(items) => depth > 0 && forall i :: 0 <= i < |items| ==> Fits(items[i], depth - 1)
    case Object(members) => depth > 0 && forall k :: k in members ==> Fits(members[k], depth - 1)
    case _ => true
  }

  /** `decoder.Decode`: the first value of a text, behind white space. */
  function Decode(text: string): (r: Scan<Json>)
    ensures r.Got? ==> Fits(r.value, MAX_DEPTH)
  {
    Value(SkipSpace(text), MAX_DEPTH)
  }
}
