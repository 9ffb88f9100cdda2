/** ParseJwtToken of util/jwt_parser_util.go: try the parsers in order and keep the
    payload of the first one that accepts the token. The parsers themselves
    (Microsoft, Firebase, ...) are not part of this model; each is a function from
    the token to its answer. */
module Jwt {
  import opened Common

  datatype UserPayload = UserPayload(username: string, email: string, name: string, firstName: string, lastName: string)

  const ZeroPayload := UserPayload("", "", "", "", "")

  /** JwtParser.TokenToPayload: a payload and an error (None when accepted). */
  type Parser = string -> (UserPayload, Option<Error>)

  /** The position of the first parser that accepts the token, |parsers| if none does. */
  function FirstAccepting(parsers: seq<Parser>, token: string): (k: nat)
    ensures k <= |parsers|
    ensures forall j :: 0 <= j < k ==> parsers[j](token).1.Some?
    ensures k < |parsers| ==> parsers[k](token).1.None?
  {
    if parsers == [] then 0
    else if parsers[0](token).1.None? then 0
    else
      var k := FirstAccepting(parsers[1..], token);
      assert forall j :: 1 <= j < k + 1 ==> parsers[j] == parsers[1..][j - 1];
      k + 1
  }

  /** ParseJwtToken: the first accepting parser's payload with no error; when none
      accepts (or there are none), a 401 "all parser failed" with the last parser's
      payload (the zero payload for no parsers). `invoked` counts the parsers called:
      none after the first that accepts. */
  method ParseJwtToken(token: string, parsers: seq<Parser>) returns (ret: UserPayload, err: Option<Error>, ghost invoked: nat)
    ensures var k := FirstAccepting(parsers, token);
      && (k < |parsers| ==> ret == parsers[k](token).0 && err == None && invoked == k + 1)
      && (k == |parsers| ==> err == Some(Coded(StatusUnauthorized, "all parser failed", map[])) && invoked == |parsers|)
      && (k == |parsers| && parsers != [] ==> ret == parsers[|parsers| - 1](token).0)
      && (parsers == [] ==> ret == ZeroPayload)
    ensures err == None <==> exists j :: 0 <= j < |parsers| && parsers[j](token).1 == None
  {
    ret, err := ZeroPayload, None;
    invoked := 0;
    for i := 0 to |parsers|
      invariant invoked == i
      invariant forall j :: 0 <= j < i ==> parsers[j](token).1.Some?
      invariant i > 0 ==> ret == parsers[i - 1](token).0
      invariant i == 0 ==> ret == ZeroPayload
    {
      var answer := parsers[i](token);
      ret, err := answer.0, answer.1;
      invoked := invoked + 1;
      if err.None? {
        FirstAcceptingIs(parsers, token, i);
        return;
      }
    }
    FirstAcceptingNone(parsers, token);
    err := Some(Coded(StatusUnauthorized, "all parser failed", map[]));
  }

  /** A parser that accepts after all earlier ones rejected is the first accepting one. */
  lemma {:induction false} FirstAcceptingIs(parsers: seq<Parser>, token: string, i: nat)
    requires i < |parsers| && parsers[i](token).1.None?
    requires forall j :: 0 <= j < i ==> parsers[j](token).1.Some?
    ensures FirstAccepting(parsers, token) == i
    decreases i
  {
    if i > 0 {
      assert parsers[1..][i - 1] == parsers[i];
      FirstAcceptingIs(parsers[1..], token, i - 1);
    }
  }

  /** When every parser rejects, none is the first accepting one. */
  lemma {:induction false} FirstAcceptingNone(parsers: seq<Parser>, token: string)
    requires forall j :: 0 <= j < |parsers| ==> parsers[j](token).1.Some?
    ensures FirstAccepting(parsers, token) == |parsers|
    decreases |parsers|
  {
    if parsers != [] {
      FirstAcceptingNone(parsers[1..], token);
    }
  }
}
