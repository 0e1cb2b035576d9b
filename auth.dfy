/** The `authenticate` middleware: the bearer token is the second
    space-separated field of the `Authorization` header, and the token
    verifier decides between 401, 403 and passing the request on. */
module Auth {
  import opened Wrappers

  /** `s.split(sep)`: the fields between separators, empty ones included;
      there is always at least one. */
  function Split(s: string, sep: char): (fields: seq<string>)
    ensures |fields| >= 1
    ensures forall k :: 0 <= k < |fields| ==> sep !in fields[k]
    decreases |s|
  {
    if s == [] then [[]]
    else
      var rest := Split(s[1..], sep);
      if s[0] == sep then [[]] + rest
      else [[s[0]] + rest[0]] + rest[1..]
  }

  /** `fields.join(sep)`. */
  function JoinWith(fields: seq<string>, sep: char): string
    requires |fields| >= 1
  {
    if |fields| == 1 then fields[0] else fields[0] + [sep] + JoinWith(fields[1..], sep)
  }

  /** Joining the fields again gives back the header. */
  lemma {:induction false} SplitJoin(s: string, sep: char)
    ensures JoinWith(Split(s, sep), sep) == s
    decreases |s|
  {
    if s != [] {
      var rest := Split(s[1..], sep);
      SplitJoin(s[1..], sep);
      if s[0] == sep {
        assert ([[]] + rest)[1..] == rest;
      } else {
        var f := [[s[0]] + rest[0]] + rest[1..];
        if |rest| > 1 {
          assert f[1..] == rest[1..];
        }
      }
      assert s == [s[0]] + s[1..];
    }
  }

  /** A field without the separator, then the separator, then the rest. */
  lemma {:induction false} SplitField(a: string, sep: char, y: string)
    requires sep !in a
    ensures Split(a + [sep] + y, sep) == [a] + Split(y, sep)
    decreases |a|
  {
    if a == [] {
      assert a + [sep] + y == [sep] + y;
      assert ([sep] + y)[1..] == y;
    } else {
      SplitField(a[1..], sep, y);
      assert (a + [sep] + y)[1..] == a[1..] + [sep] + y;
      assert [a[0]] + a[1..] == a;
    }
  }

  /** Text without the separator is a single field. */
  lemma {:induction false} SplitWhole(a: string, sep: char)
    requires sep !in a
    ensures Split(a, sep) == [a]
    decreases |a|
  {
    if a != [] {
      SplitWhole(a[1..], sep);
      assert [a[0]] + a[1..] == a;
    }
  }

  /** `authHeader && authHeader.split(' ')[1]`, as a truthy token or
      nothing: the scheme word is not looked at. */
  function Token(header: Option<string>): (r: Option<string>)
    ensures r.Some? ==> r.value != [] && ' ' !in r.value
    ensures r.Some? ==> header.Some? && |Split(header.value, ' ')| >= 2 && Split(header.value, ' ')[1] == r.value
    ensures !Truthy(header) ==> r.None?
    ensures Truthy(header) && |Split(header.value, ' ')| >= 2 && Split(header.value, ' ')[1] != [] ==>
      r == Some(Split(header.value, ' ')[1])
  {
    if !Truthy(header) then None
    else
      var fields := Split(header.value, ' ');
      if |fields| < 2 || fields[1] == [] then None else Some(fields[1])
  }

  /** Any first word, a space and a non-empty word give that word, whatever
      follows after a further space. */
  lemma TokenOfSecondField(scheme: string, token: string, rest: Option<string>)
    requires ' ' !in scheme && ' ' !in token && token != []
    ensures var h := scheme + [' '] + token + (if rest.Some? then [' '] + rest.value else []);
      Token(Some(h)) == Some(token)
  {
    if rest.Some? {
      SplitField(token, ' ', rest.value);
      assert scheme + [' '] + token + ([' '] + rest.value) == scheme + [' '] + (token + [' '] + rest.value);
      SplitField(scheme, ' ', token + [' '] + rest.value);
    } else {
      SplitWhole(token, ' ');
      assert scheme + [' '] + token + [] == scheme + [' '] + token;
      SplitField(scheme, ' ', token);
    }
  }

  /** A header without a space has no token. */
  lemma TokenNoSpace(h: string)
    requires ' ' !in h
    ensures Token(Some(h)) == None
  {
    SplitWhole(h, ' ');
  }

  /** Two spaces after the first word leave an empty second field: no token. */
  lemma TokenDoubleSpace(scheme: string, y: string)
    requires ' ' !in scheme
    ensures Token(Some(scheme + "  " + y)) == None
  {
    SplitField([], ' ', y);
    assert scheme + "  " + y == scheme + [' '] + ([] + [' '] + y);
    SplitField(scheme, ' ', [] + [' '] + y);
  }

  /** The scheme word is not checked. */
  lemma TokenBasicScheme()
    ensures Token(Some("Basic abc")) == Some("abc")
  {
    TokenOfSecondField("Basic", "abc", None);
    assert "Basic" + [' '] + "abc" + [] == "Basic abc";
  }

  /** `Bearer  x`: the doubled space leaves no token. */
  lemma TokenBearerDoubleSpace()
    ensures Token(Some("Bearer  x")) == None
  {
    TokenDoubleSpace("Bearer", "x");
    assert "Bearer" + "  " + "x" == "Bearer  x";
  }

  /** The decoded payload of a token. */
  datatype Claims = Claims(id: nat, email: string)

  /** The three ways `authenticate` ends. */
  datatype Outcome = Unauthorized | InvalidToken | Pass(claims: Claims)

  /** The answer for an outcome; passing on has no answer of its own. */
  function StatusOf(o: Outcome): Option<nat> {
    match o
    case Unauthorized => Some(401)
    case InvalidToken => Some(403)
    case Pass(_) => None
  }

  /** The decision of `authenticate`, with `jwt.verify` under the server's
      secret as `verify`: `None` stands for a thrown error. */
  function Decide(header: Option<string>, verify: string -> Option<Claims>): (r: Outcome)
    ensures r == Unauthorized <==> Token(header).None?
    ensures r == InvalidToken <==> Token(header).Some? && verify(Token(header).value).None?
    ensures r.Pass? <==> Token(header).Some? && verify(Token(header).value).Some?
    ensures r.Pass? ==> r.claims == verify(Token(header).value).value
  {
    var token := Token(header);
    if token.None? then Unauthorized
    else
      var decoded := verify(token.value);
      if decoded.None? then InvalidToken else Pass(decoded.value)
  }

  /** A missing header is refused before the verifier is consulted. */
  lemma MissingHeader(verify: string -> Option<Claims>)
    ensures Decide(None, verify) == Unauthorized
    ensures Decide(Some([]), verify) == Unauthorized
  {
  }

  /** The request and response of one call of the middleware. */
  class Exchange {
    const header: Option<string>
    var user: Option<Claims>
    var status: Option<nat>
    var nextCalls: nat

    constructor (header: Option<string>)
      ensures this.header == header && user == None && status == None && nextCalls == 0
    {
      this.header := header;
      user := None;
      status := None;
      nextCalls := 0;
    }

    /** `authenticate`: answers 401 or 403 without calling `next`, or sets
        `req.user` to the decoded payload and calls `next` once. */
    method Authenticate(verify: string -> Option<Claims>)
      modifies this
      ensures var o := Decide(header, verify);
        && (o.Pass? ==>
              user == Some(o.claims) && nextCalls == old(nextCalls) + 1 && status == old(status))
        && (!o.Pass? ==>
              status == StatusOf(o) && user == old(user) && nextCalls == old(nextCalls))
    {
      var outcome := Decide(header, verify);
      if outcome.Pass? {
        user := Some(outcome.claims);
        nextCalls := nextCalls + 1;
      } else {
        status := StatusOf(outcome);
      }
    }
  }
}
