/** Bearer-token extraction (`JwtProvider.parseToken` / `resolveToken`):
    Java's `startsWith`, `replace` (every occurrence) and `trim` on strings. */
module Jwt {
  import opened Common

  predicate StartsWith(s: string, prefix: string) {
    |prefix| <= |s| && s[..|prefix|] == prefix
  }

  /** `p` occurs in `s` at position `i`. */
  predicate OccursAt(s: string, p: string, i: int) {
    0 <= i && i + |p| <= |s| && s[i..i + |p|] == p
  }

  /** `s.replace(p, "")`: scanning left to right, every non-overlapping
      occurrence of `p` is dropped. An empty `p` leaves `s` as it is. */
  function RemoveAll(s: string, p: string): (r: string)
    ensures |r| <= |s|
    decreases |s|
  {
    if |p| == 0 || |s| < |p| then s
    else if s[..|p|] == p then RemoveAll(s[|p|..], p)
    else [s[0]] + RemoveAll(s[1..], p)
  }

  /** Java `trim` drops characters at or below U+0020. */
  predicate IsTrimmable(c: char) {
    c <= ' '
  }

  predicate Trimmed(s: string) {
    s == [] || (!IsTrimmable(s[0]) && !IsTrimmable(s[|s| - 1]))
  }

  /** Number of leading characters `trim` drops. */
  function Lead(s: string): (i: nat)
    ensures i <= |s|
    ensures forall k :: 0 <= k < i ==> IsTrimmable(s[k])
    ensures i < |s| ==> !IsTrimmable(s[i])
  {
    if s != [] && IsTrimmable(s[0]) then 1 + Lead(s[1..]) else 0
  }

  /** End of what `trim` keeps: everything from here on is dropped. */
  function Tail(s: string): (j: nat)
    ensures j <= |s|
    ensures forall k :: j <= k < |s| ==> IsTrimmable(s[k])
    ensures 0 < j ==> !IsTrimmable(s[j - 1])
  {
    if s != [] && IsTrimmable(s[|s| - 1]) then Tail(s[..|s| - 1]) else |s|
  }

  /** `String.trim`: the slice left after dropping every leading and
      trailing character at or below U+0020. */
  function Trim(s: string): (r: string)
    ensures Trimmed(r)
    ensures Lead(s) < |s| ==> Lead(s) < Tail(s) && r == s[Lead(s)..Tail(s)]
    ensures Lead(s) == |s| ==> r == []
  {
    if Lead(s) == |s| then [] else s[Lead(s)..Tail(s)]
  }

  /** `parseToken`: `null` unless the value starts with the configured
      prefix; otherwise every occurrence of the prefix removed, then trimmed. */
  function ParseToken(bearer: Option<string>, prefix: string): (r: Option<string>)
    ensures bearer.None? ==> r.None?
    ensures bearer.Some? ==> (r.Some? <==> StartsWith(bearer.value, prefix))
    ensures r.Some? ==> r.value == Trim(RemoveAll(bearer.value, prefix))
    ensures r.Some? ==> Trimmed(r.value) && |r.value| <= |bearer.value|
  {
    if bearer.Some? && StartsWith(bearer.value, prefix) then Some(Trim(RemoveAll(bearer.value, prefix)))
    else None
  }

  /** A request header: its name and value. */
  datatype Header = Header(name: string, value: string)

  /** ASCII lower case; header names are ASCII tokens. */
  function LowerAscii(c: char): (l: char)
    ensures ('A' <= c <= 'Z') ==> l as int == c as int + 32
    ensures !('A' <= c <= 'Z') ==> l == c
  {
    if 'A' <= c <= 'Z' then (c as int + 32) as char else c
  }

  function Lower(s: string): (r: string)
    ensures |r| == |s| && forall i :: 0 <= i < |s| ==> r[i] == LowerAscii(s[i])
  {
    seq(|s|, i requires 0 <= i < |s| => LowerAscii(s[i]))
  }

  /** `getHeader`: the value of the first header whose name, lower-cased,
      is `key`; none when no header has that name. */
  function HeaderValue(headers: seq<Header>, key: string): (v: Option<string>)
    ensures v.None? <==> forall i :: 0 <= i < |headers| ==> Lower(headers[i].name) != key
    ensures forall i :: (0 <= i < |headers| && Lower(headers[i].name) == key
                         && forall j :: 0 <= j < i ==> Lower(headers[j].name) != key) ==>
      v == Some(headers[i].value)
  {
    if headers == [] then None
    else if Lower(headers[0].name) == key then Some(headers[0].value)
    else
      var rest := HeaderValue(headers[1..], key);
      assert forall i :: 1 <= i < |headers| ==> headers[i] == headers[1..][i - 1];
      rest
  }

  /** `resolveToken`: the header is looked up ignoring case, and its value
      goes through `parseToken`. */
  function ResolveToken(headers: seq<Header>, headerName: string, prefix: string): (r: Option<string>)
    ensures (forall i :: 0 <= i < |headers| ==> Lower(headers[i].name) != Lower(headerName)) ==> r.None?
    ensures forall i :: (0 <= i < |headers| && Lower(headers[i].name) == Lower(headerName)
                         && forall j :: 0 <= j < i ==> Lower(headers[j].name) != Lower(headerName)) ==>
      r == ParseToken(Some(headers[i].value), prefix)
  {
    ParseToken(HeaderValue(headers, Lower(headerName)), prefix)
  }

  /** The configured name and the name the client sent may differ in case:
      a lower-case `authorization` header is found under `Authorization`. */
  lemma ResolveTokenIgnoresCase(value: string, prefix: string)
    ensures ResolveToken([Header("authorization", value)], "Authorization", prefix) == ParseToken(Some(value), prefix)
  {
  }

  /** When the prefix does not occur anywhere in `t`, removing it changes
      nothing. */
  lemma {:induction false} RemoveAllAbsent(t: string, p: string)
    requires forall i :: 0 <= i <= |t| - |p| ==> !OccursAt(t, p, i)
    ensures RemoveAll(t, p) == t
    decreases |t|
  {
    if |p| == 0 || |t| < |p| {
    } else {
      assert !OccursAt(t, p, 0);
      assert t[..|p|] != p;
      forall i | 0 <= i <= |t[1..]| - |p|
        ensures !OccursAt(t[1..], p, i)
      {
        assert !OccursAt(t, p, i + 1);
        assert t[1..][i..i + |p|] == t[i + 1..i + 1 + |p|];
      }
      RemoveAllAbsent(t[1..], p);
      assert t == [t[0]] + t[1..];
    }
  }

  lemma TrimOfTrimmed(s: string)
    requires Trimmed(s)
    ensures Trim(s) == s
  {
    if s != [] {
      assert Lead(s) == 0;
      assert Tail(s) == |s|;
    }
  }

  /** Round trip: a header built as prefix + token, where the token is
      already trimmed and does not contain the prefix, parses back to the
      token. */
  lemma ParseTokenRoundTrip(prefix: string, token: string)
    requires prefix != []
    requires Trimmed(token)
    requires forall i :: 0 <= i <= |token| - |prefix| ==> !OccursAt(token, prefix, i)
    ensures ParseToken(Some(prefix + token), prefix) == Some(token)
  {
    var s := prefix + token;
    assert s[..|prefix|] == prefix;
    assert s[|prefix|..] == token;
    RemoveAllAbsent(token, prefix);
    assert RemoveAll(s, prefix) == token;
    TrimOfTrimmed(token);
  }

  /** An occurrence of the prefix is removed wherever it sits: when no
      occurrence starts inside `a`, the scan keeps `a`, drops the `p` after
      it and carries on with `b`. */
  lemma {:induction false} RemoveAllThroughOccurrence(a: string, p: string, b: string)
    requires p != []
    requires forall i :: 0 <= i < |a| ==> !OccursAt(a + p + b, p, i)
    ensures RemoveAll(a + p + b, p) == a + RemoveAll(b, p)
    decreases |a|
  {
    if a == [] {
      assert a + p + b == p + b;
      RemoveAllFront(p, b);
    } else {
      var rest := a[1..];
      RemoveAllStep(a + p + b, p);
      NoOccurrenceInTail(a, p, b);
      RemoveAllThroughOccurrence(rest, p, b);
      var tail := RemoveAll(b, p);
      assert [a[0]] + (rest + tail) == ([a[0]] + rest) + tail;
      assert a == [a[0]] + rest;
    }
  }

  /** Where the prefix does not start, the first character is kept and the
      scan goes on from the second. */
  lemma RemoveAllStep(s: string, p: string)
    requires p != [] && |p| <= |s| && !OccursAt(s, p, 0)
    ensures RemoveAll(s, p) == [s[0]] + RemoveAll(s[1..], p)
  {
    assert s[0..|p|] == s[..|p|];
  }

  /** No occurrence before `|a|` means none before `|a| - 1` once the first
      character is gone. */
  lemma NoOccurrenceInTail(a: string, p: string, b: string)
    requires a != []
    requires forall i :: 0 <= i < |a| ==> !OccursAt(a + p + b, p, i)
    ensures (a + p + b)[1..] == a[1..] + p + b
    ensures forall i :: 0 <= i < |a[1..]| ==> !OccursAt(a[1..] + p + b, p, i)
  {
    var s := a + p + b;
    var t := a[1..] + p + b;
    assert s[1..] == t;
    forall i | 0 <= i < |a[1..]|
      ensures !OccursAt(t, p, i)
    {
      assert !OccursAt(s, p, i + 1);
      assert t[i..i + |p|] == s[i + 1..i + 1 + |p|];
    }
  }

  /** Occurrences are removed everywhere, not only at the front:
      "Bearer abcBearer " with prefix "Bearer " yields "abc". */
  lemma ParseTokenRemovesInnerPrefix()
    ensures ParseToken(Some("Bearer abcBearer "), "Bearer ") == Some("abc")
  {
    var p := "Bearer ";
    var a := "abc";
    var header := p + (a + p + []);
    assert header == "Bearer abcBearer ";
    assert header[..|p|] == p;
    forall i | 0 <= i < |a|
      ensures !OccursAt(a + p + [], p, i)
    {
      assert (a + p + [])[i..i + |p|][0] == a[i];
    }
    RemoveAllFront(p, a + p + []);
    RemoveAllThroughOccurrence(a, p, []);
    TrimOfTrimmed(a);
  }

  /** An occurrence at the front is dropped and the scan goes on after it. */
  lemma RemoveAllFront(p: string, t: string)
    requires p != []
    ensures RemoveAll(p + t, p) == RemoveAll(t, p)
  {
    assert (p + t)[..|p|] == p;
    assert (p + t)[|p|..] == t;
  }
}
