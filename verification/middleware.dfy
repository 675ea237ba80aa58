/**
 * The header handling of `authMiddleware` in `api/middleware.go`: split the
 * authorization header into whitespace-separated fields, require a
 * case-insensitive "bearer" type, and hand the second field to the token
 * verifier, which stays an uninterpreted function parameter.
 */
module Middleware {
  import opened Wrappers
  import Ascii
  import opened Http
  import opened Token

  const AuthorizationTypeBearer: string := "bearer"
  const AuthorizationPayloadKey: string := "authorization_payload"

  /** A non-empty run of non-space characters. */
  predicate IsWord(w: string)
  {
    |w| > 0 && forall i :: 0 <= i < |w| ==> !Ascii.IsSpace(w[i])
  }

  /** The length of the run of non-space characters at the start of `s`. */
  function WordLength(s: string): (n: nat)
    ensures n <= |s|
    ensures forall i :: 0 <= i < n ==> !Ascii.IsSpace(s[i])
    ensures n < |s| ==> Ascii.IsSpace(s[n])
  {
    if s == [] || Ascii.IsSpace(s[0]) then 0 else 1 + WordLength(s[1..])
  }

  /** `strings.Fields` over ASCII whitespace: the maximal non-space runs of `s`, in order. */
  function Fields(s: string): (fs: seq<string>)
    ensures forall i :: 0 <= i < |fs| ==> IsWord(fs[i])
    decreases |s|
  {
    if s == [] then []
    else if Ascii.IsSpace(s[0]) then Fields(s[1..])
    else
      var n := WordLength(s);
      [s[..n]] + Fields(s[n..])
  }

  /** The words joined with single spaces, the way a client writes "<type> <token>". */
  function JoinSpaced(ws: seq<string>): string
  {
    if ws == [] then []
    else if |ws| == 1 then ws[0]
    else ws[0] + " " + JoinSpaced(ws[1..])
  }

  /** A word on its own is a single field. */
  lemma FieldsOfWord(w: string)
    requires IsWord(w)
    ensures Fields(w) == [w]
  {
    var n := WordLength(w);
    assert !Ascii.IsSpace(w[0]);
    assert n == |w|;
    assert w[..n] == w && w[n..] == [];
    assert Fields(w) == [w[..n]] + Fields(w[n..]);
  }

  /** Splitting at a separator: the fields of `a`, a space, then `b` are the fields of `a` followed by those of `b`. */
  lemma {:induction false} FieldsSplit(a: string, c: char, b: string)
    requires Ascii.IsSpace(c)
    ensures Fields(a + [c] + b) == Fields(a) + Fields(b)
    decreases |a|
  {
    var s := a + [c] + b;
    if a == [] {
      assert s[1..] == b;
    } else if Ascii.IsSpace(a[0]) {
      assert s[1..] == a[1..] + [c] + b;
      FieldsSplit(a[1..], c, b);
    } else {
      var n := WordLength(a);
      WordLengthPrefix(a, [c] + b);
      assert s == a + ([c] + b);
      assert s[..n] == a[..n];
      assert s[n..] == a[n..] + [c] + b;
      FieldsSplit(a[n..], c, b);
    }
  }

  /** The leading word of `a` is unchanged by appending text that starts with a space. */
  lemma {:induction false} WordLengthPrefix(a: string, rest: string)
    requires rest != [] && Ascii.IsSpace(rest[0])
    ensures WordLength(a + rest) == WordLength(a)
    decreases |a|
  {
    if a != [] && !Ascii.IsSpace(a[0]) {
      assert (a + rest)[1..] == a[1..] + rest;
      WordLengthPrefix(a[1..], rest);
    } else if a == [] {
      assert a + rest == rest;
    }
  }

  /** Round trip: splitting words that were joined with single spaces gives the words back. */
  lemma {:induction false} FieldsJoinRoundTrip(ws: seq<string>)
    requires forall i :: 0 <= i < |ws| ==> IsWord(ws[i])
    ensures Fields(JoinSpaced(ws)) == ws
    decreases |ws|
  {
    if ws == [] {
    } else if |ws| == 1 {
      FieldsOfWord(ws[0]);
    } else {
      FieldsSplit(ws[0], ' ', JoinSpaced(ws[1..]));
      assert ws[0] + " " + JoinSpaced(ws[1..]) == ws[0] + [' '] + JoinSpaced(ws[1..]);
      FieldsOfWord(ws[0]);
      FieldsJoinRoundTrip(ws[1..]);
      assert ws == [ws[0]] + ws[1..];
    }
  }

  /** Why a request was turned away. */
  datatype Rejection =
    | HeaderMissing
    | InvalidFormat
    | UnsupportedType(authorizationType: string)
    | TokenRejected(err: TokenError)

  /**
   * What the middleware decides: abort with a status, or store the payload
   * under a context key and run the next handler. Either way, `verified`
   * lists the tokens handed to the verifier.
   */
  datatype Gate =
    | Abort(status: Status, reason: Rejection, verified: seq<string>)
    | Next(key: string, payload: Payload, verified: seq<string>)

  /** The decision `authMiddleware` makes for one authorization header value. */
  function AuthMiddleware(header: string, verify: string -> Result<Payload, TokenError>): (g: Gate)
    ensures g.Abort? ==> g.status == Unauthorized
    ensures header == [] ==> g == Abort(Unauthorized, HeaderMissing, [])
    ensures |Fields(header)| < 2 ==> g.Abort? && g.verified == []
    ensures header != [] && |Fields(header)| < 2 ==> g == Abort(Unauthorized, InvalidFormat, [])
    ensures |Fields(header)| >= 2 && Ascii.LowerString(Fields(header)[0]) != AuthorizationTypeBearer ==>
      g.Abort? && g.reason.UnsupportedType? && g.verified == []
    ensures g.verified != [] <==>
      |Fields(header)| >= 2 && Ascii.LowerString(Fields(header)[0]) == AuthorizationTypeBearer
    ensures g.verified != [] ==> g.verified == [Fields(header)[1]]
    ensures g.verified != [] && verify(Fields(header)[1]).Err? ==>
      g == Abort(Unauthorized, TokenRejected(verify(Fields(header)[1]).error), g.verified)
    ensures g.Next? <==>
      && |Fields(header)| >= 2
      && Ascii.LowerString(Fields(header)[0]) == AuthorizationTypeBearer
      && verify(Fields(header)[1]).Ok?
    ensures g.Next? ==>
      g.key == AuthorizationPayloadKey && g.payload == verify(Fields(header)[1]).value
  {
    if |header| == 0 then Abort(Unauthorized, HeaderMissing, [])
    else
      var fields := Fields(header);
      if |fields| < 2 then Abort(Unauthorized, InvalidFormat, [])
      else
        var authorizationType := Ascii.LowerString(fields[0]);
        if authorizationType != AuthorizationTypeBearer then
          Abort(Unauthorized, UnsupportedType(authorizationType), [])
        else
          var accessToken := fields[1];
          match verify(accessToken)
          case Err(e) => Abort(Unauthorized, TokenRejected(e), [accessToken])
          case Ok(payload) => Next(AuthorizationPayloadKey, payload, [accessToken])
  }

  /** The accepted type words are exactly the case variants of "bearer". */
  lemma BearerTypeIsCaseInsensitive(t: string)
    ensures Ascii.LowerString(t) == AuthorizationTypeBearer <==>
      |t| == 6 && forall i :: 0 <= i < 6 ==> t[i] == "bearer"[i] || t[i] == "BEARER"[i]
  {
  }

  /** A header written "<type> <token>" with a bearer type hands exactly that token to the verifier. */
  lemma BearerHeaderHandsOverToken(typ: string, token: string, verify: string -> Result<Payload, TokenError>)
    requires IsWord(typ) && IsWord(token)
    requires Ascii.LowerString(typ) == AuthorizationTypeBearer
    ensures var g := AuthMiddleware(typ + " " + token, verify);
      && g.verified == [token]
      && (g.Next? <==> verify(token).Ok?)
  {
    FieldsJoinRoundTrip([typ, token]);
    assert JoinSpaced([typ, token]) == typ + " " + token;
  }

  /** A header holding only a token (an empty type word) is rejected before the verifier is called. */
  lemma MissingTypeRejected(token: string, verify: string -> Result<Payload, TokenError>)
    requires IsWord(token)
    ensures AuthMiddleware(" " + token, verify) == Abort(Unauthorized, InvalidFormat, [])
  {
    FieldsSplit([], ' ', token);
    assert [] + [' '] + token == " " + token;
    FieldsOfWord(token);
  }

  /** Fields after the second are ignored: appending one more word changes nothing. */
  lemma ExtraFieldsIgnored(header: string, extra: string, verify: string -> Result<Payload, TokenError>)
    requires |Fields(header)| >= 2
    requires IsWord(extra)
    ensures AuthMiddleware(header + " " + extra, verify) == AuthMiddleware(header, verify)
  {
    FieldsSplit(header, ' ', extra);
    assert header + " " + extra == header + [' '] + extra;
    FieldsOfWord(extra);
  }
}
