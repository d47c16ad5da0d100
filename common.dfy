/** Values shared by every controller and service: optional request fields,
    typed error results (the HTTP status codes the controllers answer with),
    JavaScript truthiness of request fields, string prefixes, and the
    conversion of a uniform random draw into a character of an alphabet. */
module Common {

  datatype Option<+T> = None | Some(value: T)

  /** The three error answers the controllers give before touching the store. */
  datatype Error =
    | BadRequest(message: string)
    | Forbidden(message: string)
    | NotFound(message: string)
  {
    /** The HTTP status code that carries the error. */
    function Code(): (code: nat)
      ensures code == 400 <==> BadRequest?
      ensures code == 403 <==> Forbidden?
      ensures code == 404 <==> NotFound?
    {
      match this
      case BadRequest(_) => 400
      case Forbidden(_) => 403
      case NotFound(_) => 404
    }
  }

  datatype Result<+T> = Ok(value: T) | Err(error: Error)

  /** The answer of a check that produces no value. */
  datatype Outcome = Pass | Fail(error: Error)

  /** `select ... where key = k .single()`: the row, if there is one. */
  function Get<K, V>(table: map<K, V>, k: K): (r: Option<V>)
    ensures r.Some? <==> k in table
    ensures r.Some? ==> r.value == table[k]
  {
    if k in table then Some(table[k]) else None
  }

  /** A request field that JavaScript treats as false: absent, null or "". */
  predicate FalsyText(field: Option<string>) {
    field.None? || field.value == ""
  }

  /** A numeric request field that JavaScript treats as false: absent, null or 0. */
  predicate FalsyNumber(field: Option<real>) {
    field.None? || field.value == 0.0
  }

  /** `field || fallback` on a numeric request field. */
  function OrNumber(field: Option<real>, fallback: real): (r: real)
    ensures FalsyNumber(field) ==> r == fallback
    ensures !FalsyNumber(field) ==> r == field.value && r != 0.0
  {
    if FalsyNumber(field) then fallback else field.value
  }

  /** `s.startsWith(prefix)` */
  predicate StartsWith(s: string, prefix: string) {
    |prefix| <= |s| && s[..|prefix|] == prefix
  }

  lemma StartsWithConcat(prefix: string, rest: string)
    ensures StartsWith(prefix + rest, prefix)
  {
    assert (prefix + rest)[..|prefix|] == prefix;
  }

  /** JavaScript's `s.length`: the number of UTF-16 code units, which is two
      for a character outside the Basic Multilingual Plane and one otherwise. */
  function JsLength(s: string): (n: nat)
    ensures |s| <= n <= 2 * |s|
  {
    if s == [] then 0 else (if s[0] as int >= 0x1_0000 then 2 else 1) + JsLength(s[1..])
  }

  /** `(a + b).length` is `a.length + b.length`. */
  lemma {:induction false} JsLengthConcat(a: string, b: string)
    ensures JsLength(a + b) == JsLength(a) + JsLength(b)
  {
    if a == [] {
      assert a + b == b;
    } else {
      assert (a + b)[0] == a[0] && (a + b)[1..] == a[1..] + b;
      JsLengthConcat(a[1..], b);
    }
  }

  /** Characters outside the Basic Multilingual Plane count twice. */
  lemma {:induction false} JsLengthAstral(s: string)
    requires forall i :: 0 <= i < |s| ==> s[i] as int >= 0x1_0000
    ensures JsLength(s) == 2 * |s|
  {
    if s != [] {
      JsLengthAstral(s[1..]);
    }
  }

  /** A value of `Math.random()`: a real in [0, 1). */
  predicate IsDraw(r: real) {
    0.0 <= r < 1.0
  }

  predicate AllDraws(draws: seq<real>) {
    forall i :: 0 <= i < |draws| ==> IsDraw(draws[i])
  }

  /** `Math.floor(draw * n)`: the index a draw selects among `n` choices. */
  function DrawIndex(draw: real, n: nat): (i: nat)
    requires IsDraw(draw) && n > 0
    ensures i < n
    ensures i as real <= draw * n as real < i as real + 1.0
  {
    var x := draw * n as real;
    assert 0.0 <= x < n as real by {
      assert draw * n as real < 1.0 * n as real;
    }
    x.Floor
  }

  /** `alphabet.charAt(Math.floor(draw * alphabet.length))` */
  function Pick(alphabet: string, draw: real): (c: char)
    requires IsDraw(draw) && |alphabet| > 0
    ensures c in alphabet
  {
    alphabet[DrawIndex(draw, |alphabet|)]
  }
}
