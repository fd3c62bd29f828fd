/**
 * The CORS middleware's decision (internal/middleware/cors.go). The allowed
 * origins are a comma-separated list read from the environment, an empty list
 * meaning "*". A request whose Origin header equals some entry byte for byte,
 * or meets a "*" entry, is allowed: the response echoes that origin in
 * Access-Control-Allow-Origin, and an allowed OPTIONS request is answered at
 * once with 204. Anything else gets no CORS headers and passes on.
 */
module Cors {
  import opened Common

  const Wildcard: string := "*"
  const Comma: char := ','
  const Preflight: string := "OPTIONS"

  /** The list in force: the configured one, or "*" when none is configured. */
  function EffectiveOrigins(configured: string): (r: string)
    ensures r != []
    ensures configured != [] ==> r == configured
  {
    if configured == [] then Wildcard else configured
  }

  /** The source's search loop: is some entry "*" or exactly `origin`? */
  function Matches(entries: seq<string>, origin: string): (b: bool)
    ensures b <==> exists k :: 0 <= k < |entries| && (entries[k] == Wildcard || entries[k] == origin)
  {
    if entries == [] then false
    else if entries[0] == Wildcard || entries[0] == origin then true
    else
      var b := Matches(entries[1..], origin);
      assert b ==> exists k :: 0 <= k < |entries| && (entries[k] == Wildcard || entries[k] == origin) by {
        if b {
          var k :| 0 <= k < |entries| - 1 && (entries[1..][k] == Wildcard || entries[1..][k] == origin);
          assert entries[k + 1] == entries[1..][k];
        }
      }
      b
  }

  /** What the middleware does with one request. */
  datatype Decision = Decision(allowed: bool, allowOrigin: Option<string>, abortWith204: bool)

  function Decide(configured: string, origin: string, verb: string): (r: Decision)
    ensures r.allowOrigin.Some? <==> r.allowed
    ensures r.allowOrigin.Some? ==> r.allowOrigin.value == origin
    ensures r.abortWith204 ==> r.allowed && verb == Preflight
    ensures configured == [] ==> r.allowed
  {
    assert Split(Wildcard, Comma) == [Wildcard];
    var allowed := Matches(Split(EffectiveOrigins(configured), Comma), origin);
    Decision(allowed, if allowed then Some(origin) else None, allowed && verb == Preflight)
  }

  /**
   * The whole decision: allowed exactly when some comma-separated entry of
   * the list in force is "*" or equals the origin; an allowed request echoes
   * its own origin; only an allowed OPTIONS request is cut short.
   */
  lemma DecideSpec(configured: string, origin: string, verb: string)
    ensures var d := Decide(configured, origin, verb);
      var entries := Split(EffectiveOrigins(configured), Comma);
      && (d.allowed <==> exists e :: e in entries && (e == Wildcard || e == origin))
      && (d.allowed ==> d.allowOrigin == Some(origin))
      && (!d.allowed ==> d.allowOrigin == None)
      && (d.abortWith204 <==> d.allowed && verb == Preflight)
  {
    var entries := Split(EffectiveOrigins(configured), Comma);
    if Decide(configured, origin, verb).allowed {
      var k :| 0 <= k < |entries| && (entries[k] == Wildcard || entries[k] == origin);
      assert entries[k] in entries;
    }
  }

  /** With nothing configured every origin is allowed, and echoed rather than "*". */
  lemma UnconfiguredAllowsAll(origin: string, verb: string)
    ensures Decide([], origin, verb).allowed
    ensures Decide([], origin, verb).allowOrigin == Some(origin)
  {
    assert Split(Wildcard, Comma) == [Wildcard];
  }

  /** A list without commas or wildcard admits exactly the one origin it names. */
  lemma SingleOrigin(configured: string, origin: string, verb: string)
    requires configured != [] && Comma !in configured && configured != Wildcard
    ensures Decide(configured, origin, verb).allowed <==> origin == configured
  {
    assert Split(configured, Comma) == [configured];
  }

  /** Entries are not trimmed and not case-folded: the match is byte for byte. */
  lemma ExactMatchOnly(verb: string)
    ensures !Decide("a, b", "b", verb).allowed
    ensures Decide("a, b", " b", verb).allowed
    ensures !Decide("A", "a", verb).allowed
  {
    assert Split("b", Comma) == ["b"] by {
      assert Split("", Comma) == [[]];
    }
    assert " b"[1..] == "b";
    assert Split(" b", Comma) == [" b"];
    assert ", b"[1..] == " b";
    assert Split(", b", Comma) == ["", " b"];
    assert "a, b"[1..] == ", b";
    assert "a, b"[0] != Comma;
    assert ['a'] + "" == "a";
    assert Split("a, b", Comma) == [['a'] + ""] + [" b"];
    assert Split("A", Comma) == ["A"] by {
      assert Split("", Comma) == [[]];
    }
  }

}
