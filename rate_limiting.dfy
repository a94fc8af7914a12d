/**
  * RateLimitingService: the client address taken from the request headers,
  * the bucket key of each limited operation, and the map from keys to token
  * buckets with its lazy creation, bulk cleanup, per-address reset and the
  * remaining-tokens probe. A bucket is kept abstract: its limit, its refill
  * period and the tokens it holds.
  */
module RateLimiting {
  import opened Common

  // ---------------------------------------------------------------------------
  // getClientIp
  // ---------------------------------------------------------------------------

  /** The headers getClientIp reads; a header that is not sent is None. */
  datatype Headers = Headers(xForwardedFor: Option<string>, xRealIp: Option<string>, remoteAddr: string)

  /** split(",") on a header made of commas only yields no element, and [0] throws. */
  datatype ClientIpError = NoForwardedSegment

  /** split(",")[0]: the text before the first comma, or all of it when there is none. */
  function FirstSegment(s: string): (r: string)
    ensures |r| <= |s| && r == s[..|r|]
    ensures forall k :: 0 <= k < |r| ==> r[k] != ','
    ensures |r| < |s| ==> s[|r|] == ','
  {
    if s == [] || s[0] == ',' then [] else [s[0]] + FirstSegment(s[1..])
  }

  predicate AllCommas(s: string) {
    forall k :: 0 <= k < |s| ==> s[k] == ','
  }

  predicate Sent(header: Option<string>) {
    header.Some? && header.value != []
  }

  /**
    * getClientIp: the first hop of a non-empty X-Forwarded-For, trimmed;
    * otherwise a non-empty X-Real-IP as it is; otherwise the remote address.
    */
  function GetClientIp(h: Headers): (r: Result<string, ClientIpError>)
    ensures r.Err? <==> Sent(h.xForwardedFor) && AllCommas(h.xForwardedFor.value)
  {
    if Sent(h.xForwardedFor) then
      var forwarded := h.xForwardedFor.value;
      if AllCommas(forwarded) then Err(NoForwardedSegment)
      else Ok(Trim(FirstSegment(forwarded)))
    else if Sent(h.xRealIp) then Ok(h.xRealIp.value)
    else Ok(h.remoteAddr)
  }

  /**
    * A forwarded address is the text before the header's first comma (at
    * index i, or the whole header when it has none), with the blanks at both
    * ends removed; it never holds a comma itself.
    */
  lemma ForwardedIpIsFirstHop(h: Headers, i: nat)
    requires Sent(h.xForwardedFor) && !AllCommas(h.xForwardedFor.value)
    requires var s := h.xForwardedFor.value;
             && i <= |s| && (i == |s| || s[i] == ',')
             && (forall k :: 0 <= k < i ==> s[k] != ',')
    ensures GetClientIp(h) == Ok(Trim(h.xForwardedFor.value[..i]))
    ensures ',' !in GetClientIp(h).value
  {
    var s := h.xForwardedFor.value;
    var first := FirstSegment(s);
    assert |first| == i;
    assert s[..i] == first;
    if ',' in Trim(first) {
      TrimKeepsCharacters(first, ',');
      assert false;
    }
  }

  /** The other headers are read only when X-Forwarded-For is missing or empty. */
  lemma ClientIpFallbacks(h: Headers)
    requires !Sent(h.xForwardedFor)
    ensures Sent(h.xRealIp) ==> GetClientIp(h) == Ok(h.xRealIp.value)
    ensures !Sent(h.xRealIp) ==> GetClientIp(h) == Ok(h.remoteAddr)
    ensures forall other: Option<string> :: !Sent(other) ==> GetClientIp(h.(xForwardedFor := other)) == GetClientIp(h)
  {
  }

  /** A proxy chain: the client's own address comes first, and the blank after it is trimmed. */
  lemma ClientIpExample()
    ensures GetClientIp(Headers(Some("::1 ,10.0.0.1"), Some("9.9.9.9"), "10.0.0.1")) == Ok("::1")
  {
    var s := "::1 ,10.0.0.1";
    var first := FirstSegment(s);
    assert s[0] != ',' && s[1] != ',' && s[2] != ',' && s[3] != ',' && s[4] == ',';
    assert |first| == 4;
    assert first == "::1 ";
    assert TrimEnd("::1 ") == TrimEnd("::1");
  }

  /** A header of commas only has no first element, and an empty header counts as not sent. */
  lemma ClientIpEdgeExamples()
    ensures GetClientIp(Headers(Some(",,"), Some("9.9.9.9"), "10.0.0.1")) == Err(NoForwardedSegment)
    ensures GetClientIp(Headers(Some(""), Some("9.9.9.9"), "10.0.0.1")) == Ok("9.9.9.9")
  {
  }

  // ---------------------------------------------------------------------------
  // Operations and their bucket keys
  // ---------------------------------------------------------------------------

  /** The four limited operations. */
  datatype Operation = Registration | Login | EmailResend | Api {
    function Prefix(): string {
      match this
      case Registration => "registration"
      case Login => "login"
      case EmailResend => "email_resend"
      case Api => "api"
    }

    /** How many requests a full bucket allows. */
    function Capacity(): nat {
      match this
      case Registration => 20
      case Login => 50
      case EmailResend => 10
      case Api => 500
    }

    /** After how many minutes the bucket is refilled to capacity. */
    function RefillMinutes(): nat {
      match this
      case Registration => 15
      case Login => 60
      case EmailResend => 60
      case Api => 1
    }
  }

  /** The bucket key: operation, colon, address. */
  function Key(operation: string, ip: string): (k: string)
    ensures |k| == |operation| + 1 + |ip|
    ensures k[..|operation|] == operation && k[|operation|] == ':' && k[|operation| + 1..] == ip
  {
    operation + ":" + ip
  }

  predicate NoColon(s: string) {
    forall k :: 0 <= k < |s| ==> s[k] != ':'
  }

  /** An operation name without a colon and the address can be read back from a key. */
  lemma KeyInjective(op1: string, ip1: string, op2: string, ip2: string)
    requires NoColon(op1) && NoColon(op2) && Key(op1, ip1) == Key(op2, ip2)
    ensures op1 == op2 && ip1 == ip2
  {
    assert |op1| == |op2|;
  }

  /** Different operations, or different addresses, never share a bucket. */
  lemma OperationKeysDistinct(a: Operation, ipA: string, b: Operation, ipB: string)
    requires Key(a.Prefix(), ipA) == Key(b.Prefix(), ipB)
    ensures a == b && ipA == ipB
  {
    assert NoColon(a.Prefix()) && NoColon(b.Prefix());
    KeyInjective(a.Prefix(), ipA, b.Prefix(), ipB);
    assert a.Prefix() == b.Prefix();
  }

  // ---------------------------------------------------------------------------
  // Buckets
  // ---------------------------------------------------------------------------

  /** A token bucket: its limit, its refill period in minutes and the tokens it holds now. */
  datatype Bucket = Bucket(capacity: nat, refillMinutes: nat, available: nat)

  /** createNewBucket: a classic bandwidth, refilled as a whole each period, starts full. */
  function NewBucket(capacity: nat, refillMinutes: nat): (b: Bucket)
    ensures b.capacity == capacity && b.refillMinutes == refillMinutes && b.available == capacity
  {
    Bucket(capacity, refillMinutes, capacity)
  }

  /** cleanupOldBuckets clears the map once it holds more than this many buckets. */
  const MaxBuckets: int := 10000

  /** String.contains */
  predicate Contains(s: string, part: string)
    decreases |s|
  {
    (|part| <= |s| && s[..|part|] == part) || (s != [] && Contains(s[1..], part))
  }

  /** `part` occurs in `s` at index i. */
  lemma {:induction false} ContainsAt(s: string, part: string, i: nat)
    requires i + |part| <= |s| && s[i..i + |part|] == part
    ensures Contains(s, part)
    decreases i
  {
    if i > 0 {
      assert s[1..][i - 1..i - 1 + |part|] == s[i..i + |part|];
      ContainsAt(s[1..], part, i - 1);
    }
  }

  /** resetRateLimitForIp as written: every key containing the text of the address goes. */
  function WithoutContaining(buckets: map<string, Bucket>, ip: string): (r: map<string, Bucket>)
    ensures forall k :: k in r <==> k in buckets && !Contains(k, ip)
    ensures forall k :: k in r ==> r[k] == buckets[k]
  {
    map k | k in buckets && !Contains(k, ip) :: buckets[k]
  }

  /** The keys of one address, one per operation. */
  function KeysOf(ip: string): (keys: set<string>)
    ensures forall op: Operation :: Key(op.Prefix(), ip) in keys
    ensures |keys| <= 4
  {
    {Key(Registration.Prefix(), ip), Key(Login.Prefix(), ip), Key(EmailResend.Prefix(), ip), Key(Api.Prefix(), ip)}
  }

  /** The reset the method is named for: exactly the buckets of that address go. */
  function WithoutAddress(buckets: map<string, Bucket>, ip: string): (r: map<string, Bucket>)
    ensures forall k :: k in r <==> k in buckets && k !in KeysOf(ip)
    ensures forall k :: k in r ==> r[k] == buckets[k]
  {
    buckets - KeysOf(ip)
  }

  /**
    * Resetting the address 10.0.0.1 as written also drops the API bucket of
    * 10.0.0.12, since its key contains the text "10.0.0.1".
    */
  lemma ResetAsWrittenHitsOtherAddress()
    ensures var buckets := map[Key(Api.Prefix(), "10.0.0.12") := NewBucket(500, 1)];
            Key(Api.Prefix(), "10.0.0.12") !in WithoutContaining(buckets, "10.0.0.1")
  {
    var key := Key(Api.Prefix(), "10.0.0.12");
    assert key[4..4 + |"10.0.0.1"|] == "10.0.0.1";
    ContainsAt(key, "10.0.0.1", 4);
  }

  /** As written, resetting the empty address empties the whole map. */
  lemma ResetAsWrittenEmptyClearsAll(buckets: map<string, Bucket>)
    ensures WithoutContaining(buckets, "") == map[]
  {
    forall k | k in buckets ensures Contains(k, "") {
      assert k[..0] == "";
    }
  }

  /**
    * The address-exact reset removes every bucket of that address and keeps
    * the bucket of every other address and operation as it was.
    */
  lemma ResetOnlyTouchesAddress(buckets: map<string, Bucket>, ip: string, op: Operation, other: string)
    ensures Key(op.Prefix(), ip) !in WithoutAddress(buckets, ip)
    ensures other != ip && Key(op.Prefix(), other) in buckets ==>
              Key(op.Prefix(), other) in WithoutAddress(buckets, ip)
              && WithoutAddress(buckets, ip)[Key(op.Prefix(), other)] == buckets[Key(op.Prefix(), other)]
  {
    if other != ip && Key(op.Prefix(), other) in KeysOf(ip) {
      var o: Operation :| Key(o.Prefix(), ip) == Key(op.Prefix(), other);
      OperationKeysDistinct(o, ip, op, other);
    }
  }

  // ---------------------------------------------------------------------------
  // The service
  // ---------------------------------------------------------------------------

  class RateLimitingService {
    /** The ConcurrentHashMap from key to bucket. */
    var buckets: map<string, Bucket>

    constructor ()
      ensures buckets == map[]
    {
      buckets := map[];
    }

    /** getBucket (computeIfAbsent): an existing bucket is reused as it is, a missing one is created full. */
    method GetBucket(key: string, capacity: nat, refillMinutes: nat) returns (b: Bucket)
      modifies this
      ensures key in old(buckets) ==> b == old(buckets)[key] && buckets == old(buckets)
      ensures key !in old(buckets) ==> b == NewBucket(capacity, refillMinutes) && buckets == old(buckets)[key := b]
      ensures key in buckets && buckets[key] == b
    {
      if key !in buckets {
        buckets := buckets[key := NewBucket(capacity, refillMinutes)];
      }
      b := buckets[key];
    }

    /**
      * The bucket isRegistrationAllowed, isLoginAllowed, isEmailResendAllowed
      * and isApiCallAllowed take a token from, with the operation's limits.
      */
    method BucketFor(op: Operation, ip: string) returns (b: Bucket)
      modifies this
      ensures Key(op.Prefix(), ip) in old(buckets) ==> b == old(buckets)[Key(op.Prefix(), ip)] && buckets == old(buckets)
      ensures Key(op.Prefix(), ip) !in old(buckets) ==>
                && b == Bucket(op.Capacity(), op.RefillMinutes(), op.Capacity())
                && buckets == old(buckets)[Key(op.Prefix(), ip) := b]
    {
      b := GetBucket(Key(op.Prefix(), ip), op.Capacity(), op.RefillMinutes());
    }

    /** cleanupOldBuckets: the map is emptied exactly when it holds more than 10000 buckets. */
    method CleanupOldBuckets()
      modifies this
      ensures |old(buckets)| > MaxBuckets ==> buckets == map[]
      ensures |old(buckets)| <= MaxBuckets ==> buckets == old(buckets)
      ensures |buckets| <= MaxBuckets
    {
      if |buckets| > MaxBuckets {
        buckets := map[];
      }
    }

    /** resetRateLimitForIp: every bucket whose key contains the address text is removed. */
    method ResetRateLimitForIp(ip: string)
      modifies this
      ensures buckets == WithoutContaining(old(buckets), ip)
      ensures forall op: Operation :: Key(op.Prefix(), ip) !in buckets
    {
      forall op: Operation ensures Contains(Key(op.Prefix(), ip), ip) {
        var key := Key(op.Prefix(), ip);
        assert key[|op.Prefix()| + 1..|op.Prefix()| + 1 + |ip|] == ip;
        ContainsAt(key, ip, |op.Prefix()| + 1);
      }
      buckets := WithoutContaining(buckets, ip);
    }

    /** getRemainingTokens: the tokens left in operation:ip's bucket, or -1 when it has none. */
    method GetRemainingTokens(ip: string, operation: string) returns (n: int)
      ensures n == -1 <==> Key(operation, ip) !in buckets
      ensures n != -1 ==> n == buckets[Key(operation, ip)].available
    {
      var key := Key(operation, ip);
      if key in buckets {
        n := buckets[key].available;
      } else {
        n := -1;
      }
    }
  }
}
