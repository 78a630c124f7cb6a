/**
 * The REST client's request helper (client/RessourceRequest.java): the target URLs
 * of a resource and the mapping from a response's status code to a result. The
 * HTTP exchange and the JSON decoding of a 200 response's body are not part of
 * this model; decoding is a parameter.
 */
module RestRequest {
  import opened Types

  // ---------------------------------------------------------------------------
  // Decimal rendering of the port

  function DigitChar(d: nat): char
    requires d < 10
  {
    (48 + d) as char
  }

  predicate IsDigit(c: char) {
    '0' <= c <= '9'
  }

  predicate AllDigits(s: string) {
    forall i | 0 <= i < |s| :: IsDigit(s[i])
  }

  /** The decimal digits of a natural number, most significant first and without leading zeros. */
  function NatToDecimal(n: nat): string
    decreases n
  {
    if n < 10 then [DigitChar(n)] else NatToDecimal(n / 10) + [DigitChar(n % 10)]
  }

  /** Java's string conversion of an int: a minus sign for a negative value, then the digits. */
  function IntToDecimal(n: int): string {
    if n < 0 then "-" + NatToDecimal(-n) else NatToDecimal(n)
  }

  /** The value of a string of decimal digits. */
  function DecimalValue(s: string): nat
    requires AllDigits(s)
    decreases |s|
  {
    if s == [] then 0 else 10 * DecimalValue(s[..|s| - 1]) + (s[|s| - 1] as int - 48)
  }

  /** The digits read back as the number they render, have no leading zero and hold no slash. */
  lemma {:induction false} NatToDecimalRoundTrip(n: nat)
    ensures AllDigits(NatToDecimal(n)) && NatToDecimal(n) != []
    ensures DecimalValue(NatToDecimal(n)) == n
    ensures |NatToDecimal(n)| > 1 ==> NatToDecimal(n)[0] != '0'
    ensures NoSlash(NatToDecimal(n))
    decreases n
  {
    if n >= 10 {
      NatToDecimalRoundTrip(n / 10);
      var s := NatToDecimal(n);
      assert s[..|s| - 1] == NatToDecimal(n / 10);
      assert s[0] == NatToDecimal(n / 10)[0];
    }
  }

  /** A rendered int: an optional minus sign followed by at least one digit. */
  predicate IsDecimal(s: string) {
    if s != [] && s[0] == '-' then |s| > 1 && AllDigits(s[1..]) else s != [] && AllDigits(s)
  }

  function ParseDecimal(s: string): int
    requires IsDecimal(s)
  {
    if s[0] == '-' then 0 - DecimalValue(s[1..]) as int else DecimalValue(s)
  }

  /** The port's text reads back as the port, so distinct ports give distinct targets' texts. */
  lemma IntToDecimalRoundTrip(n: int)
    ensures IsDecimal(IntToDecimal(n)) && ParseDecimal(IntToDecimal(n)) == n
    ensures NoSlash(IntToDecimal(n))
  {
    if n < 0 {
      NatToDecimalRoundTrip(-n);
      var s := IntToDecimal(n);
      assert s[1..] == NatToDecimal(-n);
    } else {
      NatToDecimalRoundTrip(n);
    }
  }

  // ---------------------------------------------------------------------------
  // Targets

  predicate NoSlash(s: string) {
    forall i | 0 <= i < |s| :: s[i] != '/'
  }

  /** The text after the last slash of a string: its whole self when it has none. */
  function AfterLastSlash(s: string): string
    decreases |s|
  {
    if s == [] then [] else if s[|s| - 1] == '/' then [] else AfterLastSlash(s[..|s| - 1]) + [s[|s| - 1]]
  }

  /** The text before the last slash of a string: empty when it has none. */
  function BeforeLastSlash(s: string): string
    decreases |s|
  {
    if s == [] then [] else if s[|s| - 1] == '/' then s[..|s| - 1] else BeforeLastSlash(s[..|s| - 1])
  }

  /** A slash-free segment appended after a slash is what follows the last slash, and what precedes it is the rest. */
  lemma {:induction false} LastSegment(p: string, a: string)
    ensures NoSlash(a) ==> AfterLastSlash(p + "/" + a) == a && BeforeLastSlash(p + "/" + a) == p
    decreases |a|
  {
    var s := p + "/" + a;
    if !NoSlash(a) {
    } else if a == [] {
      assert s[..|s| - 1] == p;
    } else {
      var front := a[..|a| - 1];
      assert s[..|s| - 1] == p + "/" + front;
      assert s[|s| - 1] == a[|a| - 1];
      LastSegment(p, front);
      assert front + [a[|a| - 1]] == a;
    }
  }

  /** A resource of the node's REST interface: where the node listens and the resource's path. */
  datatype Resource = Resource(address: string, port: int, path: string)
  {
    /** Scheme, address and port: everything of the URL before "/jersey". */
    function Origin(): string {
      "http://" + address + ":" + IntToDecimal(port)
    }

    /**
     * target(): the resource's URL. It starts with the scheme, and a slash-free path
     * is its last segment, right after "/jersey" on the node's origin.
     */
    function Target(): (u: string)
      ensures |u| >= 7 && u[..7] == "http://"
      ensures NoSlash(path) ==> AfterLastSlash(u) == path && BeforeLastSlash(u) == Origin() + "/jersey"
    {
      LastSegment(Origin() + "/jersey", path);
      assert Origin() + "/jersey/" + path == Origin() + "/jersey" + "/" + path;
      Origin() + "/jersey/" + path
    }

    /** target(a): a slash-free `a` is the URL's last segment, right after the resource's own URL. */
    function Target1(a: string): (u: string)
      ensures |u| > |Target()| && u[..|Target()|] == Target()
      ensures NoSlash(a) ==> AfterLastSlash(u) == a && BeforeLastSlash(u) == Target()
    {
      LastSegment(Target(), a);
      Target() + "/" + a
    }

    /** target(a, b): a slash-free `b` is the last segment, right after `target(a)`. */
    function Target2(a: string, b: string): (u: string)
      ensures |u| > |Target1(a)| && u[..|Target1(a)|] == Target1(a)
      ensures NoSlash(b) ==> AfterLastSlash(u) == b && BeforeLastSlash(u) == Target1(a)
    {
      LastSegment(Target1(a), b);
      Target1(a) + "/" + b
    }

    /** target(a, b, c): a slash-free `c` is the last segment, right after `target(a, b)`. */
    function Target3(a: string, b: string, c: string): (u: string)
      ensures |u| > |Target2(a, b)| && u[..|Target2(a, b)|] == Target2(a, b)
      ensures NoSlash(c) ==> AfterLastSlash(u) == c && BeforeLastSlash(u) == Target2(a, b)
    {
      LastSegment(Target2(a, b), c);
      Target2(a, b) + "/" + c
    }
  }

  /** Slash-free segments are read back from the URL they build, last segment first. */
  lemma TargetsReadBack(r: Resource, a: string, b: string, c: string)
    requires NoSlash(r.path) && NoSlash(a) && NoSlash(b) && NoSlash(c)
    ensures var u := r.Target3(a, b, c);
      && AfterLastSlash(u) == c
      && AfterLastSlash(BeforeLastSlash(u)) == b
      && AfterLastSlash(BeforeLastSlash(BeforeLastSlash(u))) == a
      && AfterLastSlash(BeforeLastSlash(BeforeLastSlash(BeforeLastSlash(u)))) == r.path
  {
  }

  /** The index of the first slash of a string, or its length without any. */
  function FirstSlash(s: string): (i: nat)
    ensures i <= |s|
    decreases |s|
  {
    if s == [] then 0 else if s[0] == '/' then 0 else 1 + FirstSlash(s[1..])
  }

  lemma {:induction false} FirstSlashAfter(a: string, b: string)
    requires NoSlash(a)
    ensures FirstSlash(a + "/" + b) == |a|
    decreases |a|
  {
    if a != [] {
      assert (a + "/" + b)[1..] == a[1..] + "/" + b;
      FirstSlashAfter(a[1..], b);
    }
  }

  /** A slash-free segment followed by a slash is recovered from the string it starts. */
  lemma SplitAtSlash(a: string, b: string, a2: string, b2: string)
    requires NoSlash(a) && NoSlash(a2)
    requires a + "/" + b == a2 + "/" + b2
    ensures a == a2 && b == b2
  {
    FirstSlashAfter(a, b);
    FirstSlashAfter(a2, b2);
    var s := a + "/" + b;
    assert a == s[..|a|] && a2 == s[..|a2|];
    assert b == s[|a| + 1..] && b2 == s[|a2| + 1..];
  }

  /**
   * For one resource, slash-free segments are determined by the target URL they
   * yield: distinct record or keygroup names never address the same URL.
   */
  lemma Target3Injective(r: Resource, a: string, b: string, c: string, a2: string, b2: string, c2: string)
    requires NoSlash(a) && NoSlash(b) && NoSlash(a2) && NoSlash(b2)
    requires r.Target3(a, b, c) == r.Target3(a2, b2, c2)
    ensures a == a2 && b == b2 && c == c2
  {
    SegmentsInjective(r.Target(), a, b, c, a2, b2, c2);
  }

  lemma SegmentsInjective(t: string, a: string, b: string, c: string, a2: string, b2: string, c2: string)
    requires NoSlash(a) && NoSlash(b) && NoSlash(a2) && NoSlash(b2)
    requires t + "/" + a + "/" + b + "/" + c == t + "/" + a2 + "/" + b2 + "/" + c2
    ensures a == a2 && b == b2 && c == c2
  {
    var s1 := "/" + a + "/" + b + "/" + c;
    var s2 := "/" + a2 + "/" + b2 + "/" + c2;
    assert t + "/" + a + "/" + b + "/" + c == t + s1;
    assert t + "/" + a2 + "/" + b2 + "/" + c2 == t + s2;
    assert s1 == (t + s1)[|t|..] == (t + s2)[|t|..] == s2;
    assert s1[1..] == a + "/" + (b + "/" + c);
    assert s2[1..] == a2 + "/" + (b2 + "/" + c2);
    SplitAtSlash(a, b + "/" + c, a2, b2 + "/" + c2);
    SplitAtSlash(b, c, b2, c2);
  }

  // ---------------------------------------------------------------------------
  // Responses

  datatype Response = Response(status: int, statusText: string, body: string)

  /** handleBoolResponse: success is status 200 and nothing else. */
  function HandleBoolResponse(response: Response): (ok: bool)
    ensures ok <==> response.status == 200
  {
    response.status == 200
  }

  /**
   * handleObjectResponse: on status 200, what the body decodes to; otherwise nothing
   * (null). The two JSON decoding steps of the 200 branch are the parameter `decode`.
   */
  function HandleObjectResponse<T>(response: Response, decode: string -> Option<T>): (r: Option<T>)
    ensures r.Some? ==> HandleBoolResponse(response)
    ensures !HandleBoolResponse(response) ==> r == None
  {
    if response.status == 200 then decode(response.body) else None
  }

  /**
   * handleListObjectResponse: on status 200, the objects the body decodes to;
   * otherwise the empty list. The JSON decoding of the 200 branch, loop included, is
   * the parameter `decodeList`.
   */
  function HandleListObjectResponse<T>(response: Response, decodeList: string -> seq<T>): (r: seq<T>)
    ensures r != [] ==> HandleBoolResponse(response)
    ensures !HandleBoolResponse(response) ==> r == []
  {
    if response.status == 200 then decodeList(response.body) else []
  }

  /**
   * What decides the handlers' results: two responses with the same status get the
   * same answer from every handler when the status is not 200, whatever their bodies,
   * and the status text, which the handlers only log, never matters.
   */
  lemma HandlersIgnoreFailureDetails<T>(r1: Response, r2: Response, decode: string -> Option<T>, decodeList: string -> seq<T>)
    requires r1.status == r2.status
    requires r1.status != 200 || r1.body == r2.body
    ensures HandleBoolResponse(r1) == HandleBoolResponse(r2)
    ensures HandleObjectResponse(r1, decode) == HandleObjectResponse(r2, decode)
    ensures HandleListObjectResponse(r1, decodeList) == HandleListObjectResponse(r2, decodeList)
  {
  }

  /**
   * A successful response hands over what the server sent: when the decoding
   * recovers every encoded value, a 200 response carrying the encoding of `x` yields `x`.
   */
  lemma SuccessRoundTrip<T>(x: T, xs: seq<T>, encode: T -> string, decode: string -> Option<T>,
                            encodeList: seq<T> -> string, decodeList: string -> seq<T>, statusText: string)
    requires forall y :: decode(encode(y)) == Some(y)
    requires forall ys :: decodeList(encodeList(ys)) == ys
    ensures HandleObjectResponse(Response(200, statusText, encode(x)), decode) == Some(x)
    ensures HandleListObjectResponse(Response(200, statusText, encodeList(xs)), decodeList) == xs
  {
  }
}
