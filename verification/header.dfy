/** Extraction of the bearer token from the `Authorization` header.

    The header is split on every single space character (JavaScript's
    `split(' ')`), and the token is the second piece. The first piece, the
    scheme word, is never looked at. */
module Header {
  import opened Options

  const Space: char := ' '

  predicate NoSpace(s: string) {
    Space !in s
  }

  /** Number of space characters in `s`. */
  function Spaces(s: string): nat {
    if s == [] then 0 else (if s[0] == Space then 1 else 0) + Spaces(s[1..])
  }

  /** `s.split(' ')`: the maximal space-free pieces between single spaces, in
      order. Two adjacent spaces give an empty piece, and so does a leading or
      trailing space; the empty string gives one empty piece. */
  function Split(s: string): (parts: seq<string>)
    ensures |parts| == Spaces(s) + 1
    ensures forall k :: 0 <= k < |parts| ==> NoSpace(parts[k])
    decreases |s|
  {
    if s == [] then [[]]
    else
      var rest := Split(s[1..]);
      if s[0] == Space then [[]] + rest
      else [[s[0]] + rest[0]] + rest[1..]
  }

  /** `parts.join(' ')`, the inverse of `Split`. */
  function Join(parts: seq<string>): string
    requires |parts| >= 1
  {
    if |parts| == 1 then parts[0] else parts[0] + [Space] + Join(parts[1..])
  }

  /** `authHeader?.split(' ')[1]`, followed by the `!token` test: an absent
      header, a header with no space, and an empty second piece all give
      no token. */
  function BearerToken(header: Option<string>): (token: Option<string>)
    ensures token.Some? ==> header.Some? && token.value != [] && NoSpace(token.value)
    ensures token.Some? ==> Spaces(header.value) >= 1
  {
    match header
    case None => None
    case Some(h) =>
      var parts := Split(h);
      if |parts| >= 2 && parts[1] != [] then Some(parts[1]) else None
  }

  /** Joining the pieces gives back the header: `Split` loses nothing. */
  lemma {:induction false} JoinSplit(s: string)
    ensures Join(Split(s)) == s
    decreases |s|
  {
    if s != [] {
      var rest := Split(s[1..]);
      JoinSplit(s[1..]);
      if s[0] == Space {
        assert Split(s) == [[]] + rest;
        assert ([[]] + rest)[1..] == rest;
      } else if |rest| == 1 {
        assert Split(s) == [[s[0]] + rest[0]];
      } else {
        assert Split(s) == [[s[0]] + rest[0]] + rest[1..];
        assert Join(rest) == rest[0] + [Space] + Join(rest[1..]);
        assert ([[s[0]] + rest[0]] + rest[1..])[1..] == rest[1..];
      }
    }
  }

  /** A space-free prefix merges into the first piece of what follows. */
  lemma {:induction false} SplitPrefix(a: string, b: string)
    requires NoSpace(a)
    ensures Split(a + b) == [a + Split(b)[0]] + Split(b)[1..]
    decreases |a|
  {
    if a != [] {
      assert (a + b)[0] == a[0];
      assert (a + b)[1..] == a[1..] + b;
      SplitPrefix(a[1..], b);
      assert [a[0]] + (a[1..] + Split(b)[0]) == a + Split(b)[0];
    } else {
      assert a + b == b;
      assert a + Split(b)[0] == Split(b)[0];
      assert Split(b) == [Split(b)[0]] + Split(b)[1..];
    }
  }

  /** Splitting the join of space-free pieces gives the pieces back. */
  lemma {:induction false} SplitJoin(parts: seq<string>)
    requires |parts| >= 1
    requires forall k :: 0 <= k < |parts| ==> NoSpace(parts[k])
    ensures Split(Join(parts)) == parts
    decreases |parts|
  {
    if |parts| == 1 {
      SplitPrefix(parts[0], []);
      assert parts[0] + [] == parts[0];
    } else {
      var tail := Join(parts[1..]);
      SplitJoin(parts[1..]);
      var s := [Space] + tail;
      assert s[0] == Space && s[1..] == tail;
      assert Split(s) == [[]] + parts[1..];
      assert parts[0] + [Space] + tail == parts[0] + s;
      SplitPrefix(parts[0], s);
      assert parts[0] + [] == parts[0];
    }
  }

  /** Any scheme word, then one space, then a non-empty space-free token,
      then nothing or a further space: the token is extracted. */
  lemma TokenOfShape(scheme: string, token: string, rest: string)
    requires NoSpace(scheme) && NoSpace(token) && token != []
    requires rest == [] || rest[0] == Space
    ensures BearerToken(Some(scheme + [Space] + token + rest)) == Some(token)
  {
    var tail := [Space] + token + rest;
    assert scheme + [Space] + token + rest == scheme + tail;
    SplitPrefix(scheme, tail);
    assert tail[0] == Space && tail[1..] == token + rest;
    SplitPrefix(token, rest);
    assert Split(rest)[0] == [] by {
      if rest != [] {
        assert Split(rest) == [[]] + Split(rest[1..]);
      }
    }
    assert token + [] == token;
  }

  /** Conversely, an extracted token always sits between the first space
      and the next space (or the end) of the header. */
  lemma ShapeOfToken(h: string) returns (scheme: string, rest: string)
    requires BearerToken(Some(h)).Some?
    ensures NoSpace(scheme)
    ensures rest == [] || rest[0] == Space
    ensures h == scheme + [Space] + BearerToken(Some(h)).value + rest
  {
    var parts := Split(h);
    JoinSplit(h);
    scheme := parts[0];
    rest := if |parts| == 2 then [] else [Space] + Join(parts[2..]);
    assert parts[1..][1..] == parts[2..];
    assert Join(parts[1..]) == parts[1] + rest;
  }

  /** A header without any space carries no token. */
  lemma NoSpaceNoToken(h: string)
    requires NoSpace(h)
    ensures BearerToken(Some(h)) == None
  {
    SplitJoin([h]);
  }

  /** A header whose first space is followed by another space or by the end
      (`"Bearer "`, `"Bearer  abc"`) carries no token. */
  lemma EmptySecondPieceNoToken(scheme: string, rest: string)
    requires NoSpace(scheme)
    requires rest == [] || rest[0] == Space
    ensures BearerToken(Some(scheme + [Space] + rest)) == None
  {
    var tail := [Space] + rest;
    assert scheme + [Space] + rest == scheme + tail;
    SplitPrefix(scheme, tail);
    assert tail[0] == Space && tail[1..] == rest;
    assert Split(rest)[0] == [] by {
      if rest != [] {
        assert Split(rest) == [[]] + Split(rest[1..]);
      }
    }
  }

  /** Concrete cases: the usual header, a scheme other than `Bearer` with a
      trailing piece, a header with no space, and one with a double space. */
  lemma UsualHeader()
    ensures BearerToken(Some("Bearer abc")) == Some("abc")
  {
    assert "Bearer abc" == "Bearer" + [Space] + "abc" + [];
    TokenOfShape("Bearer", "abc", []);
  }

  lemma OtherScheme()
    ensures BearerToken(Some("Basic abc def")) == Some("abc")
  {
    assert "Basic abc def" == "Basic" + [Space] + "abc" + " def";
    TokenOfShape("Basic", "abc", " def");
  }

  lemma MissingSpace()
    ensures BearerToken(Some("Bearerabc")) == None
  {
    NoSpaceNoToken("Bearerabc");
  }

  lemma DoubleSpace()
    ensures BearerToken(Some("Bearer  abc")) == None
  {
    assert "Bearer  abc" == "Bearer" + [Space] + " abc";
    EmptySecondPieceNoToken("Bearer", " abc");
  }
}
