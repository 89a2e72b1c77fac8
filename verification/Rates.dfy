/** Exchange-rate evidence, the session cache, and the cache-then-provider lookup. */
module Rates {
  import opened Outcomes
  import opened Lots
  import Text

  datatype QuoteDirection = SourcePerBase | BasePerSource | UnknownDirection

  datatype Authority = EuropeanCentralBank | FederalReserve | OtherAuthority

  datatype ProviderId = EcbExr | FederalReserveH10 | OtherProvider

  /** The public identity of a lookup; dates are calendar days. */
  datatype RateRequest = RateRequest(source: string, base: string, date: int)

  datatype Evidence = Evidence(
    source: string,
    base: string,
    activityDate: int,
    rateDate: int,
    authority: Authority,
    provider: ProviderId,
    rateKind: string,
    quote: QuoteDirection,
    rate: real,
    dataset: string)

  type Provider = RateRequest -> Result<Evidence>

  const USD := "USD"
  const EUR := "EUR"

  predicate ValidCode(code: string) {
    |code| == 3 && forall i :: 0 <= i < 3 ==> 'A' <= code[i] <= 'Z'
  }

  predicate SupportedBase(base: string) {
    base == USD || base == EUR
  }

  predicate ValidRequest(request: RateRequest) {
    ValidCode(request.source) && SupportedBase(request.base) && request.source != request.base && request.date != ZERO_TIME
  }

  function ExpectedProvider(base: string): (ProviderId, Authority) {
    if base == EUR then (EcbExr, EuropeanCentralBank)
    else if base == USD then (FederalReserveH10, FederalReserve)
    else (OtherProvider, OtherAuthority)
  }

  predicate ValidEvidence(evidence: Evidence) {
    && ValidRequest(RateRequest(evidence.source, evidence.base, evidence.activityDate))
    && evidence.rateDate != ZERO_TIME && evidence.rateDate <= evidence.activityDate
    && (evidence.provider, evidence.authority) == ExpectedProvider(evidence.base)
    && Text.TrimSpace(evidence.rateKind) != ""
    && evidence.quote != UnknownDirection
    && evidence.rate > 0.0
    && Text.TrimSpace(evidence.dataset) != ""
  }

  predicate MatchesRequest(evidence: Evidence, request: RateRequest) {
    RateRequest(evidence.source, evidence.base, evidence.activityDate) == request
  }

  /** A lookup that always asks the provider: what any cached lookup has to agree with. */
  function FreshRate(providers: map<string, Provider>, request: RateRequest): Result<Evidence> {
    if !ValidRequest(request) then Failure(InvalidInput)
    else if request.base !in providers then Failure(RateUnavailable)
    else
      match providers[request.base](request)
      case Failure(_) => Failure(RateUnavailable)
      case Success(evidence) =>
        if !ValidEvidence(evidence) || !MatchesRequest(evidence, request) then Failure(MismatchedEvidence) else Success(evidence)
  }

  /** Rate evidence kept in memory for the session. */
  class CurrencyRateSessionCache {
    var entries: map<RateRequest, Evidence>

    constructor ()
      ensures entries == map[]
    {
      entries := map[];
    }

    method Get(request: RateRequest) returns (found: Option<Evidence>)
      ensures found == if ValidRequest(request) && request in entries then Some(entries[request]) else None
    {
      if !ValidRequest(request) || request !in entries {
        return None;
      }
      return Some(entries[request]);
    }

    /** Only valid evidence that answers the request is kept. */
    method Store(request: RateRequest, evidence: Evidence) returns (error: Option<Error>)
      modifies this
      ensures error.None? <==> ValidRequest(request) && ValidEvidence(evidence) && MatchesRequest(evidence, request)
      ensures entries == if error.None? then old(entries)[request := evidence] else old(entries)
    {
      if !ValidRequest(request) {
        return Some(InvalidInput);
      }
      if !ValidEvidence(evidence) || !MatchesRequest(evidence, request) {
        return Some(MismatchedEvidence);
      }
      entries := entries[request := evidence];
      return None;
    }
  }

  class CurrencyRateService {
    const cache: CurrencyRateSessionCache
    const providers: map<string, Provider>
    /** The lookups made, and those that reached a provider. */
    ghost var lookups: seq<RateRequest>
    ghost var asked: seq<RateRequest>

    /** The cache agrees with the providers, holds every answer they gave, and no answered request was asked twice. */
    ghost predicate Valid()
      reads this, cache
    {
      && (forall request :: request in cache.entries ==> FreshRate(providers, request) == Success(cache.entries[request]))
      && (forall i :: 0 <= i < |asked| && FreshRate(providers, asked[i]).Success? ==> asked[i] in cache.entries)
      && (forall i, j :: 0 <= i < j < |asked| && asked[i] == asked[j] ==> FreshRate(providers, asked[i]).Failure?)
    }

    constructor (providers: map<string, Provider>)
      ensures Valid() && fresh(cache) && this.providers == providers && lookups == [] && asked == []
    {
      this.providers := providers;
      cache := new CurrencyRateSessionCache();
      lookups, asked := [], [];
    }

    method LookupRate(request: RateRequest) returns (r: Result<Evidence>)
      requires Valid()
      modifies this, cache
      ensures Valid()
      ensures r == FreshRate(providers, request)
      ensures lookups == old(lookups) + [request]
      ensures asked == if !ValidRequest(request) || request in old(cache.entries) || request.base !in providers then old(asked)
                       else old(asked) + [request]
      ensures r.Success? ==> request in cache.entries
    {
      hide ValidEvidence, ValidRequest;
      lookups := lookups + [request];
      if !ValidRequest(request) {
        return Failure(InvalidInput);
      }
      var cached := cache.Get(request);
      if cached.Some? {
        return Success(cached.value);
      }
      if request.base !in providers {
        return Failure(RateUnavailable);
      }
      asked := asked + [request];
      var answer := providers[request.base](request);
      if answer.Failure? {
        return Failure(RateUnavailable);
      }
      var evidence := answer.value;
      if !ValidEvidence(evidence) || !MatchesRequest(evidence, request) {
        return Failure(MismatchedEvidence);
      }
      var error := cache.Store(request, evidence);
      r := if error.Some? then Failure(MismatchedEvidence) else Success(evidence);
    }
  }

  /** One provider for each supported base currency. */
  method ConfigureProviders(configured: seq<(string, Provider)>) returns (r: Result<map<string, Provider>>)
    ensures r.Success? <==> (forall i :: 0 <= i < |configured| ==> SupportedBase(configured[i].0))
                            && forall i, j :: 0 <= i < j < |configured| ==> configured[i].0 != configured[j].0
    ensures r.Success? ==> forall i :: 0 <= i < |configured| ==> configured[i].0 in r.value && r.value[configured[i].0] == configured[i].1
    ensures r.Success? ==> forall base :: base in r.value ==> exists i :: 0 <= i < |configured| && configured[i].0 == base
  {
    var providers: map<string, Provider> := map[];
    for i := 0 to |configured|
      invariant forall k :: 0 <= k < i ==> SupportedBase(configured[k].0) && configured[k].0 in providers
                                           && providers[configured[k].0] == configured[k].1
      invariant forall j, k :: 0 <= j < k < i ==> configured[j].0 != configured[k].0
      invariant forall base :: base in providers ==> exists k :: 0 <= k < i && configured[k].0 == base
    {
      var (base, provider) := configured[i];
      if !SupportedBase(base) {
        return Failure(InvalidInput);
      }
      if base in providers {
        ghost var k :| 0 <= k < i && configured[k].0 == base;
        assert configured[k].0 == configured[i].0;
        return Failure(InvalidInput);
      }
      ghost var before := providers;
      providers := providers[base := provider];
      forall b | b in providers
        ensures exists k :: 0 <= k < i + 1 && configured[k].0 == b
      {
        if b == base {
          assert configured[i].0 == b;
        } else {
          var k :| 0 <= k < i && configured[k].0 == b;
          assert k < i + 1;
        }
      }
    }
    return Success(providers);
  }
}
