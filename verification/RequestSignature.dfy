/**
  The text a request signature covers: ten fields joined by newlines. What it determines of a
  request, where it does not, and that it is never the text an object signature covers.
*/
module RequestSignature {
  import opened Wrappers
  import opened Text
  import opened Utf8
  import CanonicalJson
  import JsonText

  const PROTOCOL_ID := "aichan/1"
  const REQUEST_SIGNATURE_DOMAIN := "aichan.request.v1"
  const NANOS_PER_SECOND := 1_000_000_000

  /** A request to sign; the timestamp is in nanoseconds. */
  datatype RequestToSign = RequestToSign(
    verb: string,
    pathAndQuery: string,
    body: seq<byte>,
    peerId: string,
    publicKey: string,
    timestamp: nat,
    nonce: string,
    idempotencyKey: Option<string>)

  /**
    The library functions: the base64url SHA-256 digest of a body, the RFC 3339 text of a time in
    whole seconds, and the peer id derived from an encoded key, None when the key does not decode.
  */
  datatype Library = Library(
    bodyHash: seq<byte> -> string,
    secondsText: nat -> string,
    peerIdOf: string -> Option<string>)

  function UpperChar(c: char): char {
    if 'a' <= c <= 'z' then (c as int - 32) as char else c
  }

  function ToAsciiUppercase(s: string): (r: string)
    ensures |r| == |s| && forall i :: 0 <= i < |s| ==> r[i] == UpperChar(s[i])
  {
    seq(|s|, i requires 0 <= i < |s| => UpperChar(s[i]))
  }

  function KeyText(key: Option<string>): string {
    if key.Some? then key.value else ""
  }

  /** The fields in the order they are joined. */
  function Fields(lib: Library, r: RequestToSign): (fields: seq<string>)
    ensures |fields| == 10
  {
    [REQUEST_SIGNATURE_DOMAIN,
     ToAsciiUppercase(r.verb),
     r.pathAndQuery,
     lib.bodyHash(r.body),
     PROTOCOL_ID,
     r.peerId,
     r.publicKey,
     lib.secondsText(r.timestamp / NANOS_PER_SECOND),
     r.nonce,
     KeyText(r.idempotencyKey)]
  }

  function SignatureText(lib: Library, r: RequestToSign): string {
    Join(Fields(lib, r), '\n')
  }

  /** None when the peer id is not the one of the key. */
  function SignatureInput(lib: Library, r: RequestToSign): Option<seq<byte>> {
    if lib.peerIdOf(r.publicKey) != Some(r.peerId) then None else Some(Encode(SignatureText(lib, r)))
  }

  /** Digests and times have no newline in them, and the text of a time determines its second. */
  ghost predicate Sound(lib: Library) {
    && (forall body :: '\n' !in lib.bodyHash(body))
    && (forall t :: '\n' !in lib.secondsText(t))
    && (forall t, u :: lib.secondsText(t) == lib.secondsText(u) ==> t == u)
  }

  predicate NewlineFree(r: RequestToSign) {
    && '\n' !in r.verb && '\n' !in r.pathAndQuery && '\n' !in r.peerId && '\n' !in r.publicKey
    && '\n' !in r.nonce && '\n' !in KeyText(r.idempotencyKey)
  }

  /** What two requests have in common when a signature cannot tell them apart. */
  predicate SameSigned(lib: Library, r: RequestToSign, q: RequestToSign) {
    && ToAsciiUppercase(r.verb) == ToAsciiUppercase(q.verb)
    && r.pathAndQuery == q.pathAndQuery
    && lib.bodyHash(r.body) == lib.bodyHash(q.body)
    && r.peerId == q.peerId
    && r.publicKey == q.publicKey
    && r.timestamp / NANOS_PER_SECOND == q.timestamp / NANOS_PER_SECOND
    && r.nonce == q.nonce
    && KeyText(r.idempotencyKey) == KeyText(q.idempotencyKey)
  }

  lemma UpperIsNewlineFree(s: string)
    requires '\n' !in s
    ensures '\n' !in ToAsciiUppercase(s)
  {
    var u := ToAsciiUppercase(s);
    forall i | 0 <= i < |u|
      ensures u[i] != '\n'
    {
      assert s[i] in s;
    }
  }

  lemma FieldsAreNewlineFree(lib: Library, r: RequestToSign)
    requires Sound(lib) && NewlineFree(r)
    ensures forall i :: 0 <= i < 10 ==> '\n' !in Fields(lib, r)[i]
  {
    UpperIsNewlineFree(r.verb);
  }

  lemma FieldsAgreeIff(lib: Library, r: RequestToSign, q: RequestToSign)
    requires Sound(lib)
    ensures Fields(lib, r) == Fields(lib, q) <==> SameSigned(lib, r, q)
  {
    var f, g := Fields(lib, r), Fields(lib, q);
    if f == g {
      assert f[1] == g[1] && f[2] == g[2] && f[3] == g[3] && f[5] == g[5] && f[6] == g[6];
      assert f[7] == g[7] && f[8] == g[8] && f[9] == g[9];
    }
  }

  /** Lower-case letters of ASCII become upper-case, and every other character stays. */
  lemma UpperTable(c: char)
    ensures UpperChar(c) == if 'a' <= c <= 'z' then "ABCDEFGHIJKLMNOPQRSTUVWXYZ"[c as int - 'a' as int] else c
  {
    var t := "ABCDEFGHIJKLMNOPQRSTUVWXYZ";
    if 'a' <= c <= 'z' {
      var k := c as int - 'a' as int;
      assert t[k] as int == 'A' as int + k;
    }
  }

  /** The text signed, of a request without newlines in its fields, line by line. */
  lemma SignedLines(lib: Library, r: RequestToSign) returns (text: string)
    requires Sound(lib) && NewlineFree(r)
    ensures SignatureInput(lib, r).Some? <==> lib.peerIdOf(r.publicKey) == Some(r.peerId)
    ensures SignatureInput(lib, r).Some? ==> Decode(SignatureInput(lib, r).value) == Some(text)
    ensures
      var lines := Split(text, '\n');
      && Join(lines, '\n') == text && |lines| == 10
      && lines[0] == "aichan.request.v1"
      && lines[1] == ToAsciiUppercase(r.verb)
      && lines[2] == r.pathAndQuery
      && lines[3] == lib.bodyHash(r.body)
      && lines[4] == "aichan/1"
      && lines[5] == r.peerId
      && lines[6] == r.publicKey
      && lines[7] == lib.secondsText(r.timestamp / 1_000_000_000)
      && lines[8] == r.nonce
      && lines[9] == if r.idempotencyKey.Some? then r.idempotencyKey.value else ""
  {
    text := SignatureText(lib, r);
    DecodeEncodePrefix(text);
    FieldsAreNewlineFree(lib, r);
    SplitOfJoin(Fields(lib, r), '\n');
    SplitAllFree(Fields(lib, r), '\n');
  }

  /**
    A signable request without newlines in its fields has the same signature input as another request,
    with or without newlines, iff the two agree up to the case of the method, the body's digest, whole
    seconds, and a missing key being the same as an empty one.
  */
  lemma SignatureInputsAgreeIff(lib: Library, r: RequestToSign, q: RequestToSign)
    requires Sound(lib) && NewlineFree(r) && SignatureInput(lib, r).Some? && SignatureInput(lib, q).Some?
    ensures SignatureInput(lib, r) == SignatureInput(lib, q) <==> SameSigned(lib, r, q)
  {
    FieldsAgreeIff(lib, r, q);
    if SignatureInput(lib, r) == SignatureInput(lib, q) {
      EncodeInjective(SignatureText(lib, r), SignatureText(lib, q));
      FieldsAreNewlineFree(lib, r);
      JoinInjective(Fields(lib, r), Fields(lib, q), '\n');
    }
  }

  /** A signature fixes the second of a timestamp, and nothing of the fraction behind it. */
  lemma FractionIsNotSigned(lib: Library, r: RequestToSign, timestamp: nat)
    requires Sound(lib) && NewlineFree(r) && SignatureInput(lib, r).Some?
    ensures SignatureInput(lib, r.(timestamp := timestamp)) == SignatureInput(lib, r)
            <==> timestamp / NANOS_PER_SECOND == r.timestamp / NANOS_PER_SECOND
  {
    SignatureInputsAgreeIff(lib, r, r.(timestamp := timestamp));
  }

  lemma {:induction false} JoinEnd(front: seq<string>, nonce: string, key: string)
    ensures Join(front + [nonce, key], '\n') == Join(front + [nonce + "\n" + key], '\n')
  {
    var a, b := front + [nonce, key], front + [nonce + "\n" + key];
    if front == [] {
      assert a[1..] == [key];
    } else {
      assert a[1..] == front[1..] + [nonce, key] && b[1..] == front[1..] + [nonce + "\n" + key];
      JoinEnd(front[1..], nonce, key);
    }
  }

  /**
    With newlines in them, a nonce and a key run into each other, for every request: both of these
    are signable when the request is, they have the same input, and are not the same.
  */
  lemma NewlinesCollide(lib: Library, r: RequestToSign, a: string, b: string, c: string)
    ensures
      var p := r.(nonce := a + "\n" + b, idempotencyKey := Some(c));
      var q := r.(nonce := a, idempotencyKey := Some(b + "\n" + c));
      && SignatureInput(lib, p) == SignatureInput(lib, q)
      && SignatureInput(lib, p).Some? == SignatureInput(lib, r).Some?
      && !SameSigned(lib, p, q) && !SameSigned(lib, q, p)
  {
    var p := r.(nonce := a + "\n" + b, idempotencyKey := Some(c));
    var q := r.(nonce := a, idempotencyKey := Some(b + "\n" + c));
    var front := Fields(lib, r)[..8];
    assert Fields(lib, p) == front + [a + "\n" + b, c];
    assert Fields(lib, q) == front + [a, b + "\n" + c];
    JoinEnd(front, a + "\n" + b, c);
    JoinEnd(front, a, b + "\n" + c);
    assert (a + "\n" + b) + "\n" + c == a + "\n" + (b + "\n" + c);
    assert |p.nonce| > |q.nonce|;
  }

  /** The text in front of and behind a newline in it. */
  lemma CutAtNewline(s: string) returns (a: string, b: string)
    requires '\n' in s
    ensures s == a + "\n" + b
  {
    var i :| 0 <= i < |s| && s[i] == '\n';
    a, b := s[..i], s[i + 1..];
  }

  /** A nonce or key with a newline in it makes another request, not the same, with the same input. */
  lemma Colliding(lib: Library, r: RequestToSign) returns (q: RequestToSign)
    requires '\n' in r.nonce || '\n' in KeyText(r.idempotencyKey)
    ensures SignatureInput(lib, q) == SignatureInput(lib, r) && !SameSigned(lib, r, q)
  {
    var key := KeyText(r.idempotencyKey);
    var keyed := r.(idempotencyKey := Some(key));
    assert Fields(lib, keyed) == Fields(lib, r);
    if '\n' in r.nonce {
      var a, b := CutAtNewline(r.nonce);
      NewlinesCollide(lib, r, a, b, key);
      assert keyed == r.(nonce := a + "\n" + b, idempotencyKey := Some(key));
      q := r.(nonce := a, idempotencyKey := Some(b + "\n" + key));
    } else {
      var b, c := CutAtNewline(key);
      NewlinesCollide(lib, r, r.nonce, b, c);
      assert keyed == r.(nonce := r.nonce, idempotencyKey := Some(b + "\n" + c));
      q := r.(nonce := r.nonce + "\n" + b, idempotencyKey := Some(c));
    }
  }

  /**
    A signable request whose other fields hold no newline shares its input only with requests that are
    the same in all that is signed, iff its nonce and its key hold none either.
  */
  lemma InputIsUniqueIff(lib: Library, r: RequestToSign)
    requires Sound(lib) && SignatureInput(lib, r).Some?
    requires '\n' !in r.verb && '\n' !in r.pathAndQuery && '\n' !in r.peerId && '\n' !in r.publicKey
    ensures (forall q :: SignatureInput(lib, q) == SignatureInput(lib, r) ==> SameSigned(lib, r, q))
            <==> '\n' !in r.nonce && '\n' !in KeyText(r.idempotencyKey)
  {
    if '\n' !in r.nonce && '\n' !in KeyText(r.idempotencyKey) {
      forall q | SignatureInput(lib, q) == SignatureInput(lib, r)
        ensures SameSigned(lib, r, q)
      {
        SignatureInputsAgreeIff(lib, r, q);
      }
    } else {
      var q := Colliding(lib, r);
    }
  }

  lemma OtherDomain(text: string, domain: string, v: CanonicalJson.Json, i: nat)
    requires CanonicalJson.WellFormed(v) && JsonText.SignatureInput(domain, v).Some?
    requires i < |text| && i < |domain| && text[i] != domain[i]
    ensures JsonText.SignatureInput(domain, v) != Some(Encode(text))
  {
    JsonText.SignatureInputIsText(domain, v);
    var rest :| JsonText.SignatureInput(domain, v) == Some(Encode(domain + "\n" + rest));
    assert (domain + "\n" + rest)[i] == domain[i];
    if Encode(text) == Encode(domain + "\n" + rest) {
      EncodeInjective(text, domain + "\n" + rest);
    }
  }

  lemma RequestDomain(lib: Library, r: RequestToSign)
    ensures |SignatureText(lib, r)| > 7 && SignatureText(lib, r)[7] == 'r'
  {
    var fields := Fields(lib, r);
    assert fields[0][7] == 'r';
    assert Join(fields, '\n') == fields[0] + ['\n'] + Join(fields[1..], '\n');
  }

  lemma RequestIsNotInDomain(lib: Library, r: RequestToSign, domain: string, v: CanonicalJson.Json)
    requires CanonicalJson.WellFormed(v) && |domain| > 7 && domain[7] != 'r'
    requires SignatureInput(lib, r).Some? && JsonText.SignatureInput(domain, v).Some?
    ensures SignatureInput(lib, r) != JsonText.SignatureInput(domain, v)
  {
    RequestDomain(lib, r);
    OtherDomain(SignatureText(lib, r), domain, v, 7);
  }

  lemma ObjectDomain(v: CanonicalJson.Json) returns (domain: string)
    requires CanonicalJson.WellFormed(v)
    ensures |domain| > 7 && domain[7] != 'r' && JsonText.ObjectSignatureInput(v) == JsonText.SignatureInput(domain, v)
  {
    domain := JsonText.OBJECT_SIGNATURE_DOMAIN;
  }

  /** A request signature never covers the bytes an object signature covers. */
  lemma DomainsAreSeparate(lib: Library, r: RequestToSign, v: CanonicalJson.Json)
    requires CanonicalJson.WellFormed(v)
    requires SignatureInput(lib, r).Some? && JsonText.ObjectSignatureInput(v).Some?
    ensures SignatureInput(lib, r) != JsonText.ObjectSignatureInput(v)
  {
    var domain := ObjectDomain(v);
    RequestIsNotInDomain(lib, r, domain, v);
  }
}
