/** The callback URL of a subscription: built from the prefix and the id, and taken apart again. */
module CallbackUrl {
  import opened Prelude
  import CallbackId
  import Base64Url

  // A `PathAndQuery` of an absolute URI is held as the text after the authority, without
  // fragment: empty, or starting with a slash or a question mark.
  predicate WellFormed(pq: string) {
    pq == "" || pq[0] == '/' || pq[0] == '?'
  }

  function AsStr(pq: string): string {
    if pq == "" then "/" else pq
  }

  /** What `format!` writes: like `AsStr`, with the slash that a bare query lacks. */
  function Display(pq: string): string {
    if pq == "" then "/" else if pq[0] == '/' || pq[0] == '*' then pq else "/" + pq
  }

  function BeforeQuery(s: string): string {
    if s == "" || s[0] == '?' then "" else [s[0]] + BeforeQuery(s[1..])
  }

  function PathOf(pq: string): string {
    var path := BeforeQuery(pq);
    if path == "" then "/" else path
  }

  predicate HasQuery(pq: string) {
    '?' in pq
  }

  predicate EndsWithSlash(s: string) {
    s != "" && s[|s| - 1] == '/'
  }

  /** `prepare_callback_prefix`. */
  function Prepare(pq: string): (r: string)
    ensures EndsWithSlash(AsStr(r)) && AsStr(pq) <= AsStr(r)
  {
    if EndsWithSlash(AsStr(pq)) then pq else AsStr(pq) + "/"
  }

  /** No shorter text ends with a slash and extends the prefix; one that already does so is kept. */
  lemma {:induction false} PrepareIsLeast(pq: string, other: string)
    requires EndsWithSlash(other) && AsStr(pq) <= other
    ensures |AsStr(Prepare(pq))| <= |other|
    ensures EndsWithSlash(pq) ==> Prepare(pq) == pq
  {
  }

  function MakeCallback(prefix: string, id: U64): string {
    Display(prefix) + CallbackId.EncodeId(id)
  }

  datatype Route = Elsewhere | Undecodable(tail: string) | Callback(id: U64)

  /** How `call` finds the id in the path of a request. */
  function RouteOf(prefix: string, path: string): Route {
    if PathOf(prefix) <= path then
      var tail := path[|PathOf(prefix)|..];
      match CallbackId.DecodeId(tail)
      case Some(id) => Callback(id)
      case None => Undecodable(tail)
    else Elsewhere
  }

  /** Every request is told apart by its path: whether it starts with the prefix, and what follows. */
  lemma {:induction false} RouteIff(prefix: string, path: string, id: U64, tail: string)
    ensures RouteOf(prefix, path) == Callback(id) <==>
      exists text: string, bytes: seq<Byte> :: path == PathOf(prefix) + text && CallbackId.Spells(text, id, bytes)
    ensures RouteOf(prefix, path) == Undecodable(tail) <==> path == PathOf(prefix) + tail && CallbackId.DecodeId(tail).None?
    ensures RouteOf(prefix, path) == Elsewhere <==> !(PathOf(prefix) <= path)
  {
    var head := PathOf(prefix);
    assert (head + tail)[|head|..] == tail;
    if head <= path {
      var text := path[|head|..];
      assert path == head + text;
      CallbackId.DecodeIdIff(text, id);
      forall text': string, bytes: seq<Byte> | path == head + text' && CallbackId.Spells(text', id, bytes) ensures text' == text {
        assert (head + text')[|head|..] == text';
      }
    }
  }

  /** The path of a URI is all before its first question mark, or the root. */
  lemma {:induction false} PathIff(path: string, query: string)
    requires '?' !in path
    ensures PathOf(path) == PathOf(path + "?" + query) == if path == "" then "/" else path
  {
    NoQueryIsAllPath(path);
    PathEndsAtQuery(path, query);
  }

  lemma {:induction false} PathEndsAtQuery(path: string, query: string)
    requires '?' !in path
    ensures BeforeQuery(path + "?" + query) == path
  {
    if path != "" {
      assert (path + "?" + query)[1..] == path[1..] + "?" + query;
      PathEndsAtQuery(path[1..], query);
    }
  }

  /** A callback as it is written: the prefix with its slashes made sure of, and the id. */
  lemma {:induction false} CallbackIsWritten(pq: string, id: U64)
    requires WellFormed(pq)
    ensures var head := if pq == "" then "/" else if pq[0] == '?' then "/" + pq else pq;
      MakeCallback(Prepare(pq), id) == (if head[|head| - 1] == '/' then head else head + "/") + CallbackId.EncodeId(id)
  {
    if pq != "" && pq[0] == '?' {
      assert "/" + (pq + "/") == "/" + pq + "/";
    }
  }

  lemma {:induction false} NoQueryIsAllPath(s: string)
    requires '?' !in s
    ensures BeforeQuery(s) == s
  {
    if s != "" { NoQueryIsAllPath(s[1..]); }
  }

  lemma {:induction false} QueryEndsPath(s: string, more: string)
    requires '?' in s
    ensures BeforeQuery(s + more) == BeforeQuery(s)
  {
    assert (s + more)[0] == s[0];
    if s[0] != '?' {
      assert (s + more)[1..] == s[1..] + more;
      QueryEndsPath(s[1..], more);
    }
  }

  lemma {:induction false} EncodedHasNoQuery(bytes: seq<Byte>)
    ensures '?' !in Base64Url.Encode(bytes)
  {
    if |bytes| >= 3 { EncodedHasNoQuery(bytes[3..]); }
  }

  lemma {:induction false} PreparedShape(pq: string)
    requires WellFormed(pq)
    ensures HasQuery(Prepare(pq)) == HasQuery(pq)
    ensures WellFormed(Prepare(pq))
    ensures !HasQuery(pq) ==> PathOf(Prepare(pq)) == Display(Prepare(pq))
  {
    if !HasQuery(pq) { NoQueryIsAllPath(Prepare(pq)); }
  }

  /** With a query in the prefix the id ends up in the query, and every callback has the same path. */
  lemma {:induction false} QueryHidesId(prefix: string, id: U64)
    requires WellFormed(prefix) && HasQuery(prefix)
    ensures PathOf(MakeCallback(prefix, id)) == PathOf(prefix)
    ensures RouteOf(prefix, PathOf(MakeCallback(prefix, id))) == Callback(0)
  {
    QueryEndsPath(Display(prefix), CallbackId.EncodeId(id));
    assert CallbackId.FromLeBytes(CallbackId.Zeroes(8)) == 0 by { CallbackId.ZeroValue(8); }
    assert PathOf(prefix)[|PathOf(prefix)|..] == "";
    assert [] + CallbackId.Zeroes(8) == CallbackId.Zeroes(8);
  }

  /**
   The callback URL of an id is routed back to that id exactly when the prefix has no query and the
   id survives its encoding; behind a prefix with a query every callback is routed to id 0.
   */
  lemma {:induction false} RoutesBackIff(pq: string, id: U64)
    requires WellFormed(pq)
    ensures var prefix := Prepare(pq);
      RouteOf(prefix, PathOf(MakeCallback(prefix, id))) == Callback(id)
      <==> if HasQuery(pq) then id == 0 else CallbackId.Survives(id)
    ensures RouteOf(Prepare(pq), PathOf(MakeCallback(Prepare(pq), id))).Callback?
  {
    var prefix := Prepare(pq);
    PreparedShape(pq);
    if HasQuery(pq) {
      QueryHidesId(prefix, id);
    } else {
      var text := CallbackId.EncodeId(id);
      EncodedHasNoQuery(CallbackId.ToLeBytes(id, 8)[..CallbackId.Cut(CallbackId.ToLeBytes(id, 8))]);
      NoQueryIsAllPath(Display(prefix) + text);
      assert PathOf(MakeCallback(prefix, id)) == PathOf(prefix) + text;
      assert (PathOf(prefix) + text)[|PathOf(prefix)|..] == text;
      CallbackId.DecodeEncoded(id);
      CallbackId.RoundTripIff(id);
    }
  }

  /** Ids that survive have callback URLs of their own. */
  lemma {:induction false} CallbacksAreDistinct(pq: string, a: U64, b: U64)
    requires WellFormed(pq) && CallbackId.Survives(a) && CallbackId.Survives(b)
    requires MakeCallback(Prepare(pq), a) == MakeCallback(Prepare(pq), b)
    ensures a == b
  {
    var head := Display(Prepare(pq));
    assert (head + CallbackId.EncodeId(a))[|head|..] == CallbackId.EncodeId(a);
    assert (head + CallbackId.EncodeId(b))[|head|..] == CallbackId.EncodeId(b);
    CallbackId.SurvivorsAreDistinct(a, b);
  }
}
