/** The `Authorization` header check of the two auth middlewares
    (internal/middleware/auth_middleware.go and
    internal/handler/auth_middleware.go): the header must be "Bearer", one
    space and the token, compared case-sensitively. This is the `Bearer`
    form of section 2.1 of RFC 6750 without its case-insensitive scheme and
    its leniency about whitespace. The JWT check is a parameter:
    `parse(token)` is the claims of a valid token, or `None`. */
module Middleware {
  import opened Wrappers
  import opened Enum
  import opened Model

  /** `strings.Split(s, " ")`: the pieces between single spaces, in order;
      the empty string gives one empty piece, and two spaces in a row give
      an empty piece between them. */
  function Split(s: string): (parts: seq<string>)
    ensures |parts| >= 1
  {
    if s == [] then [""]
    else
      var rest := Split(s[1..]);
      if s[0] == ' ' then [""] + rest
      else [[s[0]] + rest[0]] + rest[1..]
  }

  /** `strings.Join(parts, " ")`. */
  function Join(parts: seq<string>): string
    requires |parts| >= 1
  {
    if |parts| == 1 then parts[0] else parts[0] + " " + Join(parts[1..])
  }

  /** No piece contains a space. */
  ghost predicate SpaceFree(parts: seq<string>)
  {
    forall k :: 0 <= k < |parts| ==> ' ' !in parts[k]
  }

  /** Splitting loses nothing: the pieces contain no space, and joining them
      with single spaces gives the string back. */
  lemma {:induction false} SplitJoin(s: string)
    ensures SpaceFree(Split(s))
    ensures Join(Split(s)) == s
  {
    if s != [] {
      SplitJoin(s[1..]);
      assert s == [s[0]] + s[1..];
      if s[0] == ' ' {
        SplitJoinSpace(s[1..]);
      } else {
        SplitJoinChar(s[0], s[1..]);
      }
    }
  }

  /** The step of `SplitJoin` for a string that starts with a space. */
  lemma SplitJoinSpace(t: string)
    requires SpaceFree(Split(t)) && Join(Split(t)) == t
    ensures SpaceFree(Split(" " + t)) && Join(Split(" " + t)) == " " + t
  {
    var rest := Split(t);
    SplitAfterSpace(t);
    var parts := [""] + rest;
    assert parts[1..] == rest;
    assert SpaceFree(parts) by {
      forall k | 0 <= k < |parts| ensures ' ' !in parts[k] {
        if k > 0 { assert parts[k] == rest[k - 1]; }
      }
    }
    assert Join(parts) == "" + " " + Join(rest);
  }

  /** The step of `SplitJoin` for a string that starts with another character. */
  lemma SplitJoinChar(c: char, t: string)
    requires c != ' '
    requires SpaceFree(Split(t)) && Join(Split(t)) == t
    ensures SpaceFree(Split([c] + t)) && Join(Split([c] + t)) == [c] + t
  {
    var rest := Split(t);
    SplitAfterChar(c, t);
    PrefixedSpaceFree(c, rest);
    JoinFirstChar(c, rest[0], rest[1..]);
    assert [rest[0]] + rest[1..] == rest;
  }

  /** Putting a non-space character in front of the first piece keeps the
      pieces free of spaces. */
  lemma PrefixedSpaceFree(c: char, rest: seq<string>)
    requires c != ' ' && |rest| >= 1 && SpaceFree(rest)
    ensures SpaceFree([[c] + rest[0]] + rest[1..])
  {
    var parts := [[c] + rest[0]] + rest[1..];
    forall k | 0 <= k < |parts| ensures ' ' !in parts[k] {
      if k == 0 {
        assert ' ' !in rest[0];
      } else {
        assert parts[k] == rest[k];
      }
    }
  }

  /** Splitting a string that starts with a space begins a new piece. */
  lemma SplitAfterSpace(s: string)
    ensures Split(" " + s) == [""] + Split(s)
  {
    assert (" " + s)[1..] == s;
  }

  /** Splitting a string that starts with another character puts it at the
      front of the first piece. */
  lemma SplitAfterChar(c: char, s: string)
    requires c != ' '
    ensures Split([c] + s) == [[c] + Split(s)[0]] + Split(s)[1..]
  {
    assert ([c] + s)[1..] == s;
  }

  /** Joining pieces whose first piece starts with `c` gives `c` followed by
      the join with that character removed. */
  lemma JoinFirstChar(c: char, x: string, rest: seq<string>)
    ensures Join([[c] + x] + rest) == [c] + Join([x] + rest)
  {
    if rest == [] {
      assert [[c] + x] + rest == [[c] + x];
      assert [x] + rest == [x];
    } else {
      var j := Join(rest);
      assert ([[c] + x] + rest)[1..] == rest;
      assert ([x] + rest)[1..] == rest;
      assert Join([x] + rest) == x + " " + j;
      assert ([c] + x) + " " + j == [c] + (x + " " + j);
    }
  }

  /** And the other way round: joining space-free pieces and splitting the
      result gives the pieces back. */
  lemma {:induction false} JoinSplit(parts: seq<string>)
    requires |parts| >= 1 && SpaceFree(parts)
    ensures Split(Join(parts)) == parts
    decreases |parts|, |parts[0]|
  {
    if parts[0] == [] {
      if |parts| > 1 {
        var tail := parts[1..];
        assert SpaceFree(tail) by {
          forall k | 0 <= k < |tail| ensures ' ' !in tail[k] {
            assert tail[k] == parts[k + 1];
          }
        }
        JoinSplit(tail);
        assert Join(parts) == " " + Join(tail);
        SplitAfterSpace(Join(tail));
        assert parts == [""] + tail;
      }
    } else {
      var c := parts[0][0];
      var shorter := [parts[0][1..]] + parts[1..];
      assert c != ' ' by { assert c in parts[0]; }
      assert SpaceFree(shorter) by {
        forall k | 0 <= k < |shorter| ensures ' ' !in shorter[k] {
          if k == 0 {
            assert forall x :: x in parts[0][1..] ==> x in parts[0];
          } else {
            assert shorter[k] == parts[k];
          }
        }
      }
      JoinSplit(shorter);
      assert parts[0] == [c] + parts[0][1..];
      assert parts == [[c] + parts[0][1..]] + parts[1..];
      JoinFirstChar(c, parts[0][1..], parts[1..]);
      SplitAfterChar(c, Join(shorter));
      assert shorter[1..] == parts[1..];
    }
  }

  /** The header check of internal/middleware/auth_middleware.go: an empty
      header, then `parts[0] != "Bearer" || len(parts) != 2`. */
  function ExtractToken(header: string): Result<string, ErrorType>
  {
    if header == "" then Err(ErrNoAuthToken)
    else
      var parts := Split(header);
      if parts[0] != "Bearer" || |parts| != 2 then Err(ErrWrongTokenFormat)
      else Ok(parts[1])
  }

  /** The header check of internal/handler/auth_middleware.go, which tests
      the length first: `len(parts) != 2 || parts[0] != "Bearer"`. */
  function ExtractTokenLengthFirst(header: string): (r: Result<string, ErrorType>)
    ensures r == ExtractToken(header)
  {
    if header == "" then Err(ErrNoAuthToken)
    else
      var parts := Split(header);
      if |parts| != 2 || parts[0] != "Bearer" then Err(ErrWrongTokenFormat)
      else Ok(parts[1])
  }

  /** A well-formed bearer header: "Bearer", one space, and a token with no
      space in it (possibly empty). */
  predicate IsBearer(header: string)
  {
    |header| >= 7 && header[..7] == "Bearer " && ' ' !in header[7..]
  }

  /** Every accepted header is "Bearer ", then the token it yields, which
      has no space. */
  lemma ExtractTokenSound(header: string)
    ensures ExtractToken(header).Ok? ==>
              header == "Bearer " + ExtractToken(header).value && ' ' !in ExtractToken(header).value
  {
    SplitJoin(header);
    if ExtractToken(header).Ok? {
      var parts := Split(header);
      assert parts[1..] == [parts[1]];
      assert Join(parts) == "Bearer" + " " + parts[1];
      assert ' ' !in parts[1];
    }
  }

  /** Every "Bearer ", space-free token header is accepted with that token. */
  lemma ExtractTokenComplete(token: string)
    requires ' ' !in token
    ensures ExtractToken("Bearer " + token) == Ok(token)
  {
    var parts := ["Bearer", token];
    assert SpaceFree(parts);
    JoinSplit(parts);
    assert parts[1..] == [token];
    assert Join(parts) == "Bearer" + " " + token == "Bearer " + token;
  }

  /** The header check in full: an empty header is `ErrNoAuthToken`, a
      well-formed bearer header yields the text after "Bearer ", and every
      other header is `ErrWrongTokenFormat`. */
  lemma ExtractTokenExact(header: string)
    ensures ExtractToken(header) ==
      (if header == "" then Err(ErrNoAuthToken)
       else if IsBearer(header) then Ok(header[7..])
       else Err(ErrWrongTokenFormat))
  {
    ExtractTokenSound(header);
    if IsBearer(header) {
      assert header == "Bearer " + header[7..];
      ExtractTokenComplete(header[7..]);
    }
  }

  /** The scheme is compared case-sensitively. */
  lemma LowerCaseSchemeRefused()
    ensures ExtractToken("bearer x") == Err(ErrWrongTokenFormat)
  {
    ExtractTokenExact("bearer x");
  }

  /** Exactly one space must separate the scheme from the token. */
  lemma DoubleSpaceRefused()
    ensures ExtractToken("Bearer  x") == Err(ErrWrongTokenFormat)
  {
    ExtractTokenExact("Bearer  x");
    assert "Bearer  x"[7..][0] == ' ';
  }

  /** A scheme without a token is refused. */
  lemma BareSchemeRefused()
    ensures ExtractToken("Bearer") == Err(ErrWrongTokenFormat)
  {
    ExtractTokenExact("Bearer");
  }

  /** A token with a space in it is refused. */
  lemma SpacedTokenRefused()
    ensures ExtractToken("Bearer x y") == Err(ErrWrongTokenFormat)
  {
    ExtractTokenExact("Bearer x y");
    assert "Bearer x y"[7..][1] == ' ';
  }

  /** "Bearer " with nothing after it passes the format check and hands an
      empty token to the token check. */
  lemma EmptyTokenPasses()
    ensures ExtractToken("Bearer ") == Ok("")
  {
    ExtractTokenExact("Bearer ");
  }

  /** `AuthMiddleware()` of internal/middleware: the header check, then the
      token check; on success the request's "user" is a `User` holding only
      the claims' id and username. */
  function AuthMiddleware(header: string, parse: string -> Option<Claims>): Result<User, ErrorType>
  {
    var token := ExtractToken(header);
    if token.Err? then Err(token.error)
    else
      var claims := parse(token.value);
      if claims.None? then Err(ErrInvalidToken)
      else Ok(User(claims.value.userId, claims.value.username, "", 0))
  }

  /** The middleware lets a request through exactly when the header is
      "Bearer " and a space-free token that parses, and then the context
      user carries that token's id and username, and nothing else. */
  lemma AuthMiddlewareExact(header: string, token: string, parse: string -> Option<Claims>)
    requires header == "Bearer " + token && ' ' !in token
    ensures parse(token).None? ==> AuthMiddleware(header, parse) == Err(ErrInvalidToken)
    ensures parse(token).Some? ==>
              AuthMiddleware(header, parse) == Ok(User(parse(token).value.userId, parse(token).value.username, "", 0))
  {
    ExtractTokenComplete(token);
  }

  /** A session round trip: a token signed for some claims, sent back as
      "Bearer <token>" and read by a parser that recovers those claims,
      yields the context user with exactly the signed id and username. */
  lemma SessionRoundTrip(c: Claims, sign: Claims -> Option<string>, parse: string -> Option<Claims>)
    requires sign(c).Some? && ' ' !in sign(c).value && parse(sign(c).value) == Some(c)
    ensures AuthMiddleware("Bearer " + sign(c).value, parse) == Ok(User(c.userId, c.username, "", 0))
  {
    AuthMiddlewareExact("Bearer " + sign(c).value, sign(c).value, parse);
  }

  /** The character of one decimal digit. */
  function DigitChar(d: nat): char
    requires d < 10
  {
    "0123456789"[d]
  }

  /** The decimal digits of `n`, most significant first, without leading
      zeros ("0" for zero). */
  function Digits(n: nat): string
  {
    if n < 10 then [DigitChar(n)] else Digits(n / 10) + [DigitChar(n % 10)]
  }

  /** `strconv.Itoa`: the decimal form, with a minus sign when negative. */
  function Itoa(n: int): string
  {
    if n < 0 then "-" + Digits(-n) else Digits(n)
  }

  /** The value of a string of decimal digits, or `None`. */
  function DigitsValue(s: string): Option<nat>
  {
    if s == [] then None
    else
      var c := s[|s| - 1];
      if !('0' <= c <= '9') then None
      else if |s| == 1 then Some((c as int - '0' as int) as nat)
      else
        var high := DigitsValue(s[..|s| - 1]);
        if high.None? then None else Some(high.value * 10 + (c as int - '0' as int))
  }

  /** Reading back a decimal form: an optional minus sign and digits. */
  function ParseDecimal(s: string): Option<int>
  {
    if |s| > 0 && s[0] == '-' then
      var v := DigitsValue(s[1..]);
      if v.None? then None else Some(-(v.value as int))
    else
      var v := DigitsValue(s);
      if v.None? then None else Some(v.value)
  }

  lemma {:induction false} DigitsRoundTrip(n: nat)
    ensures DigitsValue(Digits(n)) == Some(n)
  {
    if n < 10 {
      DigitCharValue(n);
    } else {
      DigitsRoundTrip(n / 10);
      AppendDigit(Digits(n / 10), n % 10);
    }
  }

  /** The decimal digits never start with a minus sign. */
  lemma {:induction false} DigitsUnsigned(n: nat)
    ensures |Digits(n)| >= 1 && Digits(n)[0] != '-'
  {
    if n >= 10 {
      DigitsUnsigned(n / 10);
    }
  }

  /** The character of a digit reads back as that digit. */
  lemma DigitCharValue(d: nat)
    requires d < 10
    ensures '0' <= DigitChar(d) <= '9' && DigitChar(d) as int - '0' as int == d
  {
  }

  /** Appending the character of a digit to a readable string multiplies its
      value by ten and adds the digit. */
  lemma AppendDigit(t: string, d: nat)
    requires d < 10 && DigitsValue(t).Some?
    ensures DigitsValue(t + [DigitChar(d)]) == Some(DigitsValue(t).value * 10 + d)
  {
    DigitCharValue(d);
    var s := t + [DigitChar(d)];
    assert s[..|s| - 1] == t;
  }

  /** `Itoa` loses nothing: its output reads back as the same number, so the
      "user_id" the handler-revision middleware stores names the claims'
      id. */
  lemma ItoaRoundTrip(n: int)
    ensures ParseDecimal(Itoa(n)) == Some(n)
  {
    if n < 0 {
      NegativeRoundTrip(n);
    } else {
      NaturalRoundTrip(n);
    }
  }

  /** A negative number's form, a minus sign before the digits of its
      magnitude, reads back as that number. */
  lemma NegativeRoundTrip(n: int)
    requires n < 0
    ensures ParseDecimal(Itoa(n)) == Some(n)
  {
    DigitsRoundTrip(-n);
    SignedValue(Digits(-n));
  }

  /** A minus sign before a readable string of digits negates its value. */
  lemma SignedValue(t: string)
    requires DigitsValue(t).Some?
    ensures ParseDecimal("-" + t) == Some(-(DigitsValue(t).value as int))
  {
    var s := "-" + t;
    assert s[1..] == t;
  }

  /** A natural number's form, its digits alone, reads back as that number. */
  lemma NaturalRoundTrip(n: int)
    requires n >= 0
    ensures ParseDecimal(Itoa(n)) == Some(n)
  {
    DigitsUnsigned(n);
    DigitsRoundTrip(n);
  }

  /** `AuthMiddleware(jwtSecret)` of internal/handler: the same checks, then
      the context values "user_id" (the decimal id) and "username". */
  function HandlerAuthMiddleware(header: string, parse: string -> Option<Claims>): Result<(string, string), ErrorType>
  {
    var token := ExtractTokenLengthFirst(header);
    if token.Err? then Err(token.error)
    else
      var claims := parse(token.value);
      if claims.None? then Err(ErrInvalidToken)
      else Ok((Itoa(claims.value.userId), claims.value.username))
  }

  /** Both middlewares accept and refuse the same headers with the same
      errors, and on success agree on the user: the handler revision's
      "user_id" reads back as the id the other one stores. */
  lemma MiddlewaresAgree(header: string, parse: string -> Option<Claims>)
    ensures HandlerAuthMiddleware(header, parse).Ok? <==> AuthMiddleware(header, parse).Ok?
    ensures AuthMiddleware(header, parse).Err? ==> HandlerAuthMiddleware(header, parse).error == AuthMiddleware(header, parse).error
    ensures AuthMiddleware(header, parse).Ok? ==>
              && ParseDecimal(HandlerAuthMiddleware(header, parse).value.0) == Some(AuthMiddleware(header, parse).value.id)
              && HandlerAuthMiddleware(header, parse).value.1 == AuthMiddleware(header, parse).value.username
  {
    var token := ExtractToken(header);
    if token.Ok? && parse(token.value).Some? {
      ItoaRoundTrip(parse(token.value).value.userId);
    }
  }
}
