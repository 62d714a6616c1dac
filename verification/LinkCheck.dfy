/**
 The link checker's redirect loop and the address policy its connections dial through, against an
 arbitrary server and arbitrary DNS answers that may change from one query to the next.
 */
module LinkCheck {
  import opened Bytes

  type Url = string
  type Host = string
  type Address = string

  /** `urlsplit`: the scheme in lower case, the host if there is one, the port if it is a number, and the rest. */
  datatype Parts = Parts(
    scheme: string, host: Option<Host>, port: Option<Option<int>>, path: string, query: string, fragment: string)

  /** The body of a reply, as reading it turns out. */
  datatype Body = Content(data: bytes) | BodyTimedOut | BodyBroken

  datatype Reply =
    | Status(code: int, location: Option<string>, body: Body)
    | ErrorStatus(errorCode: int)
    | TimedOut
    | Unreachable
    | Broken

  /** DNS gives records, some of which may not be addresses, or fails. */
  datatype Answer = Records(records: seq<Option<Address>>) | NoAnswer

  /** The functions of the standard library and the tables of service hosts. */
  datatype World = World(
    split: Url -> Option<Parts>,
    strip: Url -> Url,
    join: (Url, string) -> Option<Url>,
    lower: string -> string,
    literal: Host -> Option<Address>,
    routable: Address -> bool,
    rpcService: Host -> bool,
    friendbot: Host -> bool,
    rpcAnswer: (Url, bytes) -> bool)

  // ----------------------------------------------------------------- network

  datatype Query = Query(host: Host, port: int, answer: Answer)

  /**
   One request: its URL, the address authorized for it, the host and the address dialled, how many DNS
   queries had been made by then, and the reply.
   */
  datatype Request = Request(
    url: Url, authorized: Address, dialHost: Host, dialled: Address, queries: nat, reply: Reply)

  /**
   DNS and servers. What they answer is any function of how many queries or requests there were before,
   so it may change from one to the next. Every query and every request is on record.
   */
  class Network {
    const resolve: (nat, Host, int) -> Answer
    const route: (nat, Url) -> (Host, int)
    const serve: (nat, Url) -> Reply
    var asked: seq<Query>
    var sent: seq<Request>

    constructor (resolve: (nat, Host, int) -> Answer, route: (nat, Url) -> (Host, int), serve: (nat, Url) -> Reply)
      ensures this.resolve == resolve && this.route == route && this.serve == serve && asked == [] && sent == []
    {
      this.resolve, this.route, this.serve := resolve, route, serve;
      asked, sent := [], [];
    }

    /** `getaddrinfo`. */
    method Resolve(host: Host, port: int) returns (answer: Answer)
      modifies this`asked
      ensures answer == resolve(|old(asked)|, host, port) && asked == old(asked) + [Query(host, port, answer)]
    {
      answer := resolve(|asked|, host, port);
      asked := asked + [Query(host, port, answer)];
    }

    /** Connect to an address, request a URL, and get whatever comes back. */
    method Send(url: Url, authorized: Address, dialHost: Host, dialled: Address) returns (reply: Reply)
      modifies this`sent
      ensures reply == serve(|old(sent)|, url)
      ensures sent == old(sent) + [Request(url, authorized, dialHost, dialled, |asked|, reply)]
    {
      reply := serve(|sent|, url);
      sent := sent + [Request(url, authorized, dialHost, dialled, |asked|, reply)];
    }
  }

  // ------------------------------------------------------------------ policy

  datatype Authorization = Granted(address: Address) | NonPublic | ResolveFailed

  /** Every record is an address, and one the policy allows. */
  predicate AllAllowed(world: World, allowNonPublic: bool, records: seq<Option<Address>>) {
    forall r | r in records :: r.Some? && (allowNonPublic || world.routable(r.value))
  }

  /** What is known of a host's addresses: the literal itself, or the answer to the last query. */
  function AnswerFor(world: World, host: Host, asked: seq<Query>): Answer
    requires world.literal(host).None? ==> asked != []
  {
    if world.literal(host).Some? then Records([world.literal(host)]) else asked[|asked| - 1].answer
  }

  /**
   Judging a host asks one query for it, or none for a literal. The first address is granted exactly
   when there is one and all of them are allowed: a single bad one refuses the host.
   */
  ghost predicate Judged(world: World, allowNonPublic: bool, host: Host, port: int,
                         before: seq<Query>, after: seq<Query>, r: Authorization) {
    && (if world.literal(host).Some? then after == before
        else |after| == |before| + 1 && after == before + [Query(host, port, after[|before|].answer)])
    && var answer := AnswerFor(world, host, after);
       && (r.ResolveFailed? <==> answer.NoAnswer? || answer.records == [])
       && (r.Granted? <==>
             answer.Records? && answer.records != [] && AllAllowed(world, allowNonPublic, answer.records))
       && (r.Granted? ==> Some(r.address) == answer.records[0])
  }

  /**
   An address of a host, given here by its name in lower case, that the policy lets be dialled: a
   literal that is allowed, or one record of an answer to a query for the host, all records of which
   are allowed.
   */
  ghost predicate Vetted(world: World, allowNonPublic: bool, asked: seq<Query>, name: string, a: Address) {
    || (exists h: Host :: IsLiteral(world, h, name, a) && (allowNonPublic || world.routable(a)))
    || (exists q | q in asked :: Answers(world, allowNonPublic, q, name, a))
  }

  predicate IsLiteral(world: World, h: Host, name: string, a: Address) {
    world.lower(h) == name && world.literal(h) == Some(a)
  }

  predicate Answers(world: World, allowNonPublic: bool, q: Query, name: string, a: Address) {
    && world.lower(q.host) == name && q.answer.Records? && Some(a) in q.answer.records
    && AllAllowed(world, allowNonPublic, q.answer.records)
  }

  lemma VettedGrows(world: World, allowNonPublic: bool, few: seq<Query>, many: seq<Query>, name: string, a: Address)
    requires Vetted(world, allowNonPublic, few, name, a) && forall q | q in few :: q in many
    ensures Vetted(world, allowNonPublic, many, name, a)
  {
  }

  /** Under the strict policy a vetted address is routable. */
  lemma VettedIsRoutable(world: World, asked: seq<Query>, name: string, a: Address)
    requires Vetted(world, false, asked, name, a)
    ensures world.routable(a)
  {
  }

  lemma SliceToEnd<T>(s: seq<T>, i: nat)
    requires i <= |s|
    ensures s[i..|s|] == s[i..] && s[0..|s|] == s
  {
  }

  lemma JudgedIsVetted(world: World, allowNonPublic: bool, host: Host, port: int,
                       before: seq<Query>, after: seq<Query>, r: Authorization)
    requires Judged(world, allowNonPublic, host, port, before, after, r) && r.Granted?
    ensures before <= after
    ensures Vetted(world, allowNonPublic, after[|before|..], world.lower(host), r.address)
  {
    var records := AnswerFor(world, host, after).records;
    assert records[0] in records;
    if world.literal(host).Some? {
      assert IsLiteral(world, host, world.lower(host), r.address);
    } else {
      var q := after[|before|];
      assert after[|before|..] == [q];
      assert Answers(world, allowNonPublic, q, world.lower(host), r.address);
    }
  }

  class AddressPolicy {
    const world: World
    const network: Network
    const allowNonPublic: bool
    var validated: map<Host, Address>

    /** Every pinned address is vetted for its host. */
    ghost predicate Valid()
      reads this, network`asked
    {
      forall name | name in validated :: Vetted(world, allowNonPublic, network.asked, name, validated[name])
    }

    constructor (world: World, network: Network, allowNonPublic: bool)
      ensures Valid() && this.world == world && this.network == network && this.allowNonPublic == allowNonPublic
      ensures validated == map[]
    {
      this.world := world;
      this.network := network;
      this.allowNonPublic := allowNonPublic;
      validated := map[];
    }

    /** `_addresses`: the literal itself, or the distinct answers of one query, the first one first. */
    method Addresses(host: Host, port: int) returns (r: Option<seq<Address>>, failure: Authorization)
      modifies network`asked
      ensures world.literal(host).Some? ==> network.asked == old(network.asked)
      ensures world.literal(host).None? ==>
                exists answer :: network.asked == old(network.asked) + [Query(host, port, answer)]
      ensures var answer := AnswerFor(world, host, network.asked);
              if r.Some? then
                && answer.Records? && answer.records != [] && |r.value| > 0 && Some(r.value[0]) == answer.records[0]
                && (forall record | record in answer.records :: record.Some? && record.value in r.value)
                && (forall a | a in r.value :: Some(a) in answer.records)
                && (forall i, j | 0 <= i < j < |r.value| :: r.value[i] != r.value[j])
              else if answer.NoAnswer? || answer.records == [] then failure == ResolveFailed
              else failure == NonPublic && None in answer.records
    {
      failure := NonPublic;
      if world.literal(host).Some? {
        return Some([world.literal(host).value]), failure;
      }
      var answer := network.Resolve(host, port);
      if answer.NoAnswer? {
        return None, ResolveFailed;
      }
      var addresses: seq<Address> := [];
      for i := 0 to |answer.records|
        invariant forall k | 0 <= k < i :: answer.records[k].Some? && answer.records[k].value in addresses
        invariant forall a | a in addresses :: Some(a) in answer.records
        invariant forall j, k | 0 <= j < k < |addresses| :: addresses[j] != addresses[k]
        invariant i > 0 ==> |addresses| > 0 && Some(addresses[0]) == answer.records[0]
        invariant i == 0 ==> addresses == []
      {
        if answer.records[i].None? {
          return None, NonPublic;
        }
        var a := answer.records[i].value;
        if a !in addresses {
          addresses := addresses + [a];
        }
      }
      if addresses == [] {
        return None, ResolveFailed;
      }
      return Some(addresses), failure;
    }

    /** `authorize`: one answer that is not routable refuses the whole host. */
    method Authorize(host: Host, port: int) returns (r: Authorization)
      requires Valid()
      modifies this, network`asked
      ensures Valid() && Judged(world, allowNonPublic, host, port, old(network.asked), network.asked, r)
      ensures validated == if r.Granted? then old(validated)[world.lower(host) := r.address] else old(validated)
    {
      var addresses, failure := Addresses(host, port);
      PinsKept(old(network.asked), network.asked);
      if addresses.None? {
        return failure;
      }
      if !allowNonPublic {
        for i := 0 to |addresses.value|
          invariant forall k | 0 <= k < i :: world.routable(addresses.value[k])
        {
          if !world.routable(addresses.value[i]) {
            assert Some(addresses.value[i]) in AnswerFor(world, host, network.asked).records;
            return NonPublic;
          }
        }
      }
      var chosen := addresses.value[0];
      r := Granted(chosen);
      JudgedIsVetted(world, allowNonPublic, host, port, old(network.asked), network.asked, r);
      ghost var latest := network.asked[|old(network.asked)|..];
      VettedGrows(world, allowNonPublic, latest, network.asked, world.lower(host), chosen);
      validated := validated[world.lower(host) := chosen];
    }

    /** What is pinned stays vetted when more queries are made. */
    lemma PinsKept(before: seq<Query>, after: seq<Query>)
      requires forall name | name in validated :: Vetted(world, allowNonPublic, before, name, validated[name])
      requires before <= after
      ensures forall name | name in validated :: Vetted(world, allowNonPublic, after, name, validated[name])
    {
      forall name | name in validated
        ensures Vetted(world, allowNonPublic, after, name, validated[name])
      {
        VettedGrows(world, allowNonPublic, before, after, name, validated[name]);
      }
    }

    /** `validated_address`: the pinned address, or one that is validated right before the dial. */
    method ValidatedAddress(host: Host, port: int) returns (r: Authorization)
      requires Valid()
      modifies this, network`asked
      ensures Valid() && old(network.asked) <= network.asked
      ensures r.Granted? ==> Vetted(world, allowNonPublic, network.asked, world.lower(host), r.address)
      ensures if old(world.lower(host) in validated)
              then r == Granted(old(validated[world.lower(host)])) && validated == old(validated)
                   && network.asked == old(network.asked)
              else Judged(world, allowNonPublic, host, port, old(network.asked), network.asked, r)
    {
      if world.lower(host) in validated {
        return Granted(validated[world.lower(host)]);
      }
      r := Authorize(host, port);
      assert r.Granted? ==> world.lower(host) in validated;
    }
  }

  // ----------------------------------------------------------------- results

  datatype Reason =
    | InvalidUrl | NonHttpScheme | MissingHost | InvalidPort | RefusedAddress | NetworkError | Timeout | OtherError
    | HttpStatus | MissingLocation | RedirectLoop | TooManyRedirects | ServiceUrl | ServiceAnswer

  /** `Raised` is the ValueError of an unparsable redirect target, which nothing in `check_link` catches. */
  datatype Result = Good | Inconclusive | Failure(reason: Reason) | Raised

  predicate HttpUrl(world: World, url: Url) {
    var parts := world.split(url);
    parts.Some? && parts.value.scheme in {"http", "https"}
  }

  /** The host of a URL in lower case; nothing when there is none. */
  function HostName(world: World, url: Url): Option<Host> {
    var parts :- world.split(url);
    var host :- parts.host;
    Some(world.lower(host))
  }

  predicate IsRedirect(reply: Reply) {
    reply.Status? && reply.code in {301, 302, 303, 307, 308}
  }

  /** Whether a request was answered by a redirect that names a location. */
  predicate Redirects(reply: Reply) {
    IsRedirect(reply) && reply.location.Some? && reply.location.value != ""
  }

  /** Where a redirect leads, if it can be parsed; userinfo is stripped. */
  function Target(world: World, url: Url, reply: Reply): Option<Url> {
    if !Redirects(reply) || world.join(url, reply.location.value).None? then None
    else
      var target := world.strip(world.join(url, reply.location.value).value);
      if world.split(target).None? then None else Some(target)
  }

  function TargetOf(world: World, r: Request): Option<Url> {
    Target(world, r.url, r.reply)
  }

  /** How a reply that is not followed is reported. */
  function Report(reply: Reply): Result {
    match reply
    case Status(code, _, _) => if code == 200 then Good else if code == 429 then Inconclusive else Failure(HttpStatus)
    case ErrorStatus(code) => if code == 429 then Inconclusive else Failure(HttpStatus)
    case TimedOut => Failure(Timeout)
    case Unreachable => Failure(NetworkError)
    case Broken => Failure(OtherError)
  }

  // ---------------------------------------------------------------- requests

  /** The requests follow the server's redirects, each one that of the request before it. */
  ghost predicate Chain(world: World, url: Url, log: seq<Request>) {
    && (log != [] ==> log[0].url == world.strip(url))
    && (forall i | 0 < i < |log| :: TargetOf(world, log[i - 1]) == Some(log[i].url))
  }

  /** Every reply is what the network gave to that request. */
  ghost predicate Answered(network: Network, earlier: nat, log: seq<Request>) {
    forall i | 0 <= i < |log| :: log[i].reply == network.serve(earlier + i, log[i].url)
  }

  ghost predicate Distinct(log: seq<Request>) {
    forall i, j | 0 <= i < j < |log| :: log[i].url != log[j].url
  }

  /** A vetted address for a host, from the queries made after the first `since` and before a request. */
  ghost predicate VettedBetween(world: World, allowNonPublic: bool, asked: seq<Query>, since: nat, until: nat,
                                name: Host, a: Address) {
    since <= until <= |asked| && Vetted(world, allowNonPublic, asked[since..until], name, a)
  }

  /**
   A request goes to an HTTP URL, whose host was judged after the first `since` queries, at an address
   that was vetted before the dial for the host that is dialled; that host's address is the one just
   authorized unless a proxy is dialled.
   */
  ghost predicate RequestOk(world: World, allowNonPublic: bool, asked: seq<Query>, since: nat, r: Request) {
    && HttpUrl(world, r.url) && HostName(world, r.url).Some?
    && var name := HostName(world, r.url).value;
       && VettedBetween(world, allowNonPublic, asked, since, r.queries, name, r.authorized)
       && VettedBetween(world, allowNonPublic, asked, 0, r.queries, world.lower(r.dialHost), r.dialled)
       && (world.lower(r.dialHost) == name ==> r.dialled == r.authorized)
  }

  /** The number of queries that had been made when the turn of the `i`th request began. */
  function Since(start: nat, log: seq<Request>, i: nat): nat
    requires i <= |log|
  {
    if i == 0 then start else log[i - 1].queries
  }

  /** Every request is in order, and its host was judged after the request before it. */
  ghost predicate RequestsOk(world: World, allowNonPublic: bool, asked: seq<Query>, start: nat, log: seq<Request>) {
    forall i | 0 <= i < |log| :: RequestOk(world, allowNonPublic, asked, Since(start, log, i), log[i])
  }

  lemma RequestOkLater(world: World, allowNonPublic: bool, before: seq<Query>, after: seq<Query>, since: nat,
                       r: Request)
    requires before <= after && RequestOk(world, allowNonPublic, before, since, r)
    ensures RequestOk(world, allowNonPublic, after, since, r)
  {
    hide Vetted;
    assert before[since..r.queries] == after[since..r.queries];
    assert before[0..r.queries] == after[0..r.queries];
  }

  lemma RequestsOkLater(world: World, allowNonPublic: bool, before: seq<Query>, after: seq<Query>, start: nat,
                        log: seq<Request>)
    requires before <= after && RequestsOk(world, allowNonPublic, before, start, log)
    ensures RequestsOk(world, allowNonPublic, after, start, log)
  {
    hide RequestOk;
    forall i | 0 <= i < |log|
      ensures RequestOk(world, allowNonPublic, after, Since(start, log, i), log[i])
    {
      RequestOkLater(world, allowNonPublic, before, after, Since(start, log, i), log[i]);
    }
  }

  /** What a URL lacks for a request, if anything. */
  function Malformed(world: World, url: Url): (problem: Option<Reason>)
    ensures problem.None? ==> world.split(url).Some? && world.split(url).value.host.Some?
  {
    var parts := world.split(url);
    if parts.None? then Some(InvalidUrl)
    else if parts.value.scheme !in {"http", "https"} then Some(NonHttpScheme)
    else if parts.value.host.None? then Some(MissingHost)
    else if parts.value.port.None? then Some(InvalidPort)
    else None
  }

  /** The policy allows every address that is known for a host. */
  ghost predicate Cleared(world: World, allowNonPublic: bool, host: Host, asked: seq<Query>) {
    && (world.literal(host).Some? || asked != [])
    && var answer := AnswerFor(world, host, asked);
       answer.Records? && answer.records != [] && AllAllowed(world, allowNonPublic, answer.records)
  }

  /** The policy does not allow a host, and that is the result. */
  ghost predicate Denied(world: World, allowNonPublic: bool, host: Host, asked: seq<Query>, result: Result) {
    && (world.literal(host).Some? || asked != []) && !Cleared(world, allowNonPublic, host, asked)
    && var answer := AnswerFor(world, host, asked);
       result == Failure(if answer.NoAnswer? || answer.records == [] then NetworkError else RefusedAddress)
  }

  /** `apply_policy`: whether a URL's destination may be contacted now. */
  method ApplyPolicy(policy: AddressPolicy, url: Url) returns (refused: Option<Result>, address: Address)
    requires policy.Valid()
    modifies policy, policy.network`asked
    ensures policy.Valid() && old(policy.network.asked) <= policy.network.asked
    ensures match Malformed(policy.world, url)
            case Some(problem) => refused == Some(Failure(problem)) && policy.network.asked == old(policy.network.asked)
            case None =>
              var host := policy.world.split(url).value.host.value;
              if refused.Some?
              then Denied(policy.world, policy.allowNonPublic, host, policy.network.asked, refused.value)
              else Cleared(policy.world, policy.allowNonPublic, host, policy.network.asked)
    ensures Malformed(policy.world, url).None? ==>
              var Parts(scheme, host, port, _, _, _) := policy.world.split(url).value;
              var number := if port.value.Some? then port.value.value else if scheme == "https" then 443 else 80;
              policy.world.literal(host.value).None? ==>
                exists answer :: policy.network.asked == old(policy.network.asked) + [Query(host.value, number, answer)]
    ensures refused.None? ==>
              && HttpUrl(policy.world, url) && HostName(policy.world, url).Some?
              && var name := HostName(policy.world, url).value;
                 && name in policy.validated && policy.validated[name] == address
                 && VettedBetween(policy.world, policy.allowNonPublic, policy.network.asked,
                                  |old(policy.network.asked)|, |policy.network.asked|, name, address)
  {
    address := "";
    var world := policy.world;
    var parts := world.split(url);
    if parts.None? {
      return Some(Failure(InvalidUrl)), address;
    }
    if parts.value.scheme !in {"http", "https"} {
      return Some(Failure(NonHttpScheme)), address;
    }
    if parts.value.host.None? {
      return Some(Failure(MissingHost)), address;
    }
    if parts.value.port.None? {
      return Some(Failure(InvalidPort)), address;
    }
    var default := if parts.value.scheme == "https" then 443 else 80;
    var port := if parts.value.port.value.Some? then parts.value.port.value.value else default;
    hide Judged, Vetted, Cleared, Denied;
    ghost var before := policy.network.asked;
    var host, allowed := parts.value.host.value, policy.allowNonPublic;
    var authorization := policy.Authorize(host, port);
    ghost var asked := policy.network.asked;
    JudgedGrows(world, allowed, host, port, before, asked, authorization);
    match authorization {
      case NonPublic => return Some(Failure(RefusedAddress)), address;
      case ResolveFailed => return Some(Failure(NetworkError)), address;
      case Granted(a) =>
        address := a;
        JudgedIsVetted(world, allowed, host, port, before, asked, authorization);
        SliceToEnd(asked, |before|);
        return None, address;
    }
  }

  lemma JudgedGrows(world: World, allowNonPublic: bool, host: Host, port: int,
                    before: seq<Query>, after: seq<Query>, r: Authorization)
    requires Judged(world, allowNonPublic, host, port, before, after, r)
    ensures before <= after && (r.Granted? <==> Cleared(world, allowNonPublic, host, after))
    ensures r.NonPublic? ==> Denied(world, allowNonPublic, host, after, Failure(RefusedAddress))
    ensures r.ResolveFailed? ==> Denied(world, allowNonPublic, host, after, Failure(NetworkError))
  {
  }

  /** `opener.open`: dial through the policy, then let the server reply. At most one request is sent. */
  method Open(policy: AddressPolicy, url: Url, authorized: Address, ghost since: nat)
    returns (refused: Option<Result>, reply: Reply)
    requires policy.Valid() && HttpUrl(policy.world, url) && HostName(policy.world, url).Some?
    requires var name := HostName(policy.world, url).value;
             && name in policy.validated && policy.validated[name] == authorized
             && VettedBetween(policy.world, policy.allowNonPublic, policy.network.asked, since,
                              |policy.network.asked|, name, authorized)
    modifies policy, policy.network
    ensures policy.Valid() && old(policy.network.asked) <= policy.network.asked
    ensures refused.Some? ==>
              && refused.value in {Failure(RefusedAddress), Failure(NetworkError)}
              && policy.network.sent == old(policy.network.sent)
              && policy.world.lower(policy.network.route(|old(policy.network.sent)|, url).0) !in old(policy.validated)
    ensures refused.None? ==> OneSent(policy, old(policy.network.sent), url, reply, since)
  {
    hide Judged;
    var (host, port) := policy.network.route(|policy.network.sent|, url);
    ghost var before := policy.network.asked;
    var dialled := policy.ValidatedAddress(host, port);
    ghost var asked := policy.network.asked;
    match dialled {
      case NonPublic => return Some(Failure(RefusedAddress)), Broken;
      case ResolveFailed => return Some(Failure(NetworkError)), Broken;
      case Granted(a) =>
        VettedGrows(policy.world, policy.allowNonPublic, before[since..], asked[since..],
                    HostName(policy.world, url).value, authorized);
        SliceToEnd(asked, since);
        reply := policy.network.Send(url, authorized, host, a);
        return None, reply;
    }
  }

  /** Exactly one request has been sent: for this URL, with this reply, and in order. */
  ghost predicate OneSent(policy: AddressPolicy, before: seq<Request>, url: Url, reply: Reply, since: nat)
    reads policy, policy.network
  {
    var sent := policy.network.sent;
    && |sent| == |before| + 1 && sent == before + [sent[|before|]]
    && var r := sent[|before|];
       && r.url == url && r.reply == reply == policy.network.serve(|before|, url) && r.queries == |policy.network.asked|
       && RequestOk(policy.world, policy.allowNonPublic, policy.network.asked, since, r)
  }

  // ---------------------------------------------------------------- the loop

  /** The connection for a URL would go to another host, a proxy, which is judged by itself. */
  ghost predicate Proxied(policy: AddressPolicy, url: Url, host: Host)
    reads policy, policy.network
  {
    policy.world.lower(policy.network.route(|policy.network.sent|, url).0) != policy.world.lower(host)
  }

  /** Why a page is not requested: its URL lacks something, or its host or the proxy's is not allowed. */
  ghost predicate Blocked(policy: AddressPolicy, url: Url, result: Result)
    reads policy, policy.network
  {
    match Malformed(policy.world, url)
    case Some(problem) => result == Failure(problem)
    case None =>
      var host := policy.world.split(url).value.host.value;
      || Denied(policy.world, policy.allowNonPublic, host, policy.network.asked, result)
      || (Proxied(policy, url, host) && result in {Failure(RefusedAddress), Failure(NetworkError)})
  }

  /** One turn of the loop up to the reply: authorize the destination, then request the page, once. */
  method Hop(policy: AddressPolicy, url: Url) returns (refused: Option<Result>, reply: Reply)
    requires policy.Valid()
    modifies policy, policy.network
    ensures policy.Valid() && old(policy.network.asked) <= policy.network.asked
    ensures refused.Some? ==>
              && Blocked(policy, url, refused.value) && refused.value.Failure?
              && policy.network.sent == old(policy.network.sent)
    ensures refused.None? ==>
              && OneSent(policy, old(policy.network.sent), url, reply, |old(policy.network.asked)|)
              && HttpUrl(policy.world, url)
  {
    var denied, address := ApplyPolicy(policy, url);
    if denied.Some? {
      return denied, Broken;
    }
    refused, reply := Open(policy, url, address, |old(policy.network.asked)|);
  }

  /** The rest of a turn: what a reply means, and the URL to go on with if it is a redirect to follow. */
  method NextUrl(world: World, url: Url, reply: Reply, visited: set<Url>) returns (final: Option<Result>, next: Url)
    ensures !IsRedirect(reply) ==> final == Some(Report(reply))
    ensures IsRedirect(reply) && !Redirects(reply) ==> final == Some(Failure(MissingLocation))
    ensures Redirects(reply) ==>
              match Target(world, url, reply)
              case None => final == Some(Raised)
              case Some(target) =>
                if !HttpUrl(world, target) then final == Some(Failure(NonHttpScheme))
                else if target in visited then final == Some(Failure(RedirectLoop))
                else final == None && next == target
  {
    next := "";
    match reply {
      case ErrorStatus(code) => return Some(if code == 429 then Inconclusive else Failure(HttpStatus)), next;
      case TimedOut => return Some(Failure(Timeout)), next;
      case Unreachable => return Some(Failure(NetworkError)), next;
      case Broken => return Some(Failure(OtherError)), next;
      case Status(code, location, _) =>
        if code == 200 {
          return Some(Good), next;
        } else if code == 429 {
          return Some(Inconclusive), next;
        } else if code !in {301, 302, 303, 307, 308} {
          return Some(Failure(HttpStatus)), next;
        } else if location.None? || location.value == "" {
          return Some(Failure(MissingLocation)), next;
        }
    }
    var joined := world.join(url, reply.location.value);
    if joined.None? {
      return Some(Raised), next;
    }
    next := world.strip(joined.value);
    var parts := world.split(next);
    if parts.None? {
      return Some(Raised), next;
    }
    if parts.value.scheme !in {"http", "https"} {
      return Some(Failure(NonHttpScheme)), next;
    }
    if next in visited {
      return Some(Failure(RedirectLoop)), next;
    }
    return None, next;
  }

  ghost function Urls(log: seq<Request>): set<Url> {
    set r | r in log :: r.url
  }

  /** The last request was redirected to a page that had been requested. */
  ghost predicate Loops(world: World, log: seq<Request>) {
    log != [] && exists r | r in log :: TargetOf(world, log[|log| - 1]) == Some(r.url)
  }

  /** The last request was redirected to a page to go on with. */
  ghost predicate Continues(world: World, log: seq<Request>) {
    && log != [] && TargetOf(world, log[|log| - 1]).Some? && !Loops(world, log)
    && HttpUrl(world, TargetOf(world, log[|log| - 1]).value)
  }

  /** What the last reply means when it is not a redirect to go on with. */
  ghost function Meaning(world: World, log: seq<Request>): Result
    requires log != []
  {
    var last := log[|log| - 1];
    if !IsRedirect(last.reply) then Report(last.reply)
    else if !Redirects(last.reply) then Failure(MissingLocation)
    else if TargetOf(world, last).None? then Raised
    else if !HttpUrl(world, TargetOf(world, last).value) then Failure(NonHttpScheme)
    else Failure(RedirectLoop)
  }

  /** The last reply is a redirect to something that cannot be parsed. */
  ghost predicate Unparsable(world: World, log: seq<Request>) {
    log != [] && Redirects(log[|log| - 1].reply) && TargetOf(world, log[|log| - 1]).None?
  }

  /** The last reply is a page. */
  ghost predicate Arrived(log: seq<Request>) {
    log != [] && log[|log| - 1].reply.Status? && log[|log| - 1].reply.code == 200
  }

  lemma MeaningExactly(world: World, log: seq<Request>)
    requires log != []
    ensures TargetOf(world, log[|log| - 1]).Some? ==> Redirects(log[|log| - 1].reply)
    ensures Loops(world, log) <==>
            TargetOf(world, log[|log| - 1]).Some? && TargetOf(world, log[|log| - 1]).value in Urls(log)
    ensures Meaning(world, log) == Raised <==> Unparsable(world, log)
    ensures Meaning(world, log) == Good <==> Arrived(log)
    ensures Continues(world, log) ==> !Unparsable(world, log) && !Arrived(log)
  {
  }

  /** What the rest of a turn finds out is what the last reply means. */
  lemma TurnMeans(world: World, log: seq<Request>, final: Option<Result>, next: Url)
    requires log != []
    requires var (url, reply) := (log[|log| - 1].url, log[|log| - 1].reply);
             && (!IsRedirect(reply) ==> final == Some(Report(reply)))
             && (IsRedirect(reply) && !Redirects(reply) ==> final == Some(Failure(MissingLocation)))
             && (Redirects(reply) ==>
                   match Target(world, url, reply)
                   case None => final == Some(Raised)
                   case Some(target) =>
                     if !HttpUrl(world, target) then final == Some(Failure(NonHttpScheme))
                     else if target in Urls(log) then final == Some(Failure(RedirectLoop))
                     else final == None && next == target)
    ensures if final.Some? then !Continues(world, log) && final.value == Meaning(world, log)
            else Continues(world, log) && TargetOf(world, log[|log| - 1]) == Some(next) && next !in Urls(log)
  {
    hide Report, HttpUrl;
  }

  /** What the last reply means, by its status. */
  lemma ByStatus(world: World, log: seq<Request>, result: Result)
    requires log != [] && ((Continues(world, log) && result.Failure?) || result == Meaning(world, log))
    ensures var reply := log[|log| - 1].reply;
            && (result == Inconclusive <==> reply == ErrorStatus(429) || (reply.Status? && reply.code == 429))
            && (reply.ErrorStatus? && reply.errorCode != 429 ==> result == Failure(HttpStatus))
            && (reply.Status? && reply.code !in {200, 301, 302, 303, 307, 308, 429} ==> result == Failure(HttpStatus))
            && (reply.Status? && reply.code in {301, 302, 303, 307, 308} && reply.location in {None, Some("")} ==>
                  result == Failure(MissingLocation))
            && (reply.TimedOut? ==> result == Failure(Timeout))
            && (reply.Unreachable? ==> result == Failure(NetworkError))
            && (reply.Broken? ==> result == Failure(OtherError))
  {
    hide HttpUrl;
  }

  /** The page to request next. */
  ghost function NextPage(world: World, url: Url, log: seq<Request>): Url
    requires log == [] || Continues(world, log)
  {
    if log == [] then world.strip(url) else TargetOf(world, log[|log| - 1]).value
  }

  /** The result is what the last reply means, unless the next page is one redirect too far or blocked. */
  ghost predicate PageResult(policy: AddressPolicy, url: Url, maxRedirects: nat, log: seq<Request>, result: Result)
    reads policy, policy.network
  {
    if log != [] && !Continues(policy.world, log) then result == Meaning(policy.world, log)
    else if |log| == maxRedirects + 1 then result == Failure(TooManyRedirects)
    else Blocked(policy, NextPage(policy.world, url, log), result)
  }

  lemma PageEnds(policy: AddressPolicy, url: Url, maxRedirects: nat, log: seq<Request>, current: Url, result: Result)
    requires if log != [] && !Continues(policy.world, log) then result == Meaning(policy.world, log)
             else
               && (if log == [] then current == policy.world.strip(url)
                   else TargetOf(policy.world, log[|log| - 1]) == Some(current))
               && if |log| == maxRedirects + 1 then result == Failure(TooManyRedirects)
                  else Blocked(policy, current, result)
    ensures PageResult(policy, url, maxRedirects, log, result)
  {
    hide Blocked, Meaning;
  }

  lemma NothingYet(world: World, allowNonPublic: bool, url: Url, asked: seq<Query>)
    ensures Sound(world, allowNonPublic, asked, |asked|, url, [])
    ensures Urls([]) == {} && !Unparsable(world, []) && !Arrived([])
  {
  }

  /** The requests so far are in order, and no query has been made since the last one. */
  ghost predicate Sound(world: World, allowNonPublic: bool, asked: seq<Query>, start: nat, url: Url,
                        log: seq<Request>) {
    && Distinct(log) && Chain(world, url, log) && RequestsOk(world, allowNonPublic, asked, start, log)
    && |asked| == Since(start, log, |log|)
  }

  lemma SoundMeans(world: World, allowNonPublic: bool, before: seq<Query>, after: seq<Query>, start: nat, url: Url,
                   log: seq<Request>)
    requires Sound(world, allowNonPublic, before, start, url, log) && before <= after
    ensures Distinct(log) && Chain(world, url, log) && RequestsOk(world, allowNonPublic, after, start, log)
  {
    RequestsOkLater(world, allowNonPublic, before, after, start, log);
  }

  lemma SoundGrows(world: World, allowNonPublic: bool, before: seq<Query>, after: seq<Query>, start: nat, url: Url,
                   log: seq<Request>, r: Request)
    requires Sound(world, allowNonPublic, before, start, url, log) && before <= after && r.url !in Urls(log)
    requires if log == [] then r.url == world.strip(url) else TargetOf(world, log[|log| - 1]) == Some(r.url)
    requires RequestOk(world, allowNonPublic, after, |before|, r) && r.queries == |after|
    ensures Sound(world, allowNonPublic, after, start, url, log + [r]) && Urls(log + [r]) == Urls(log) + {r.url}
  {
    hide RequestOk, RequestsOk, Distinct, Chain, Urls, TargetOf;
    LogGrows(world, url, log, r);
    RequestsOkLater(world, allowNonPublic, before, after, start, log);
    RequestsSnoc(world, allowNonPublic, after, start, log, r);
  }

  lemma LogGrows(world: World, url: Url, log: seq<Request>, r: Request)
    requires Distinct(log) && Chain(world, url, log) && r.url !in Urls(log)
    requires if log == [] then r.url == world.strip(url) else TargetOf(world, log[|log| - 1]) == Some(r.url)
    ensures Distinct(log + [r]) && Chain(world, url, log + [r]) && Urls(log + [r]) == Urls(log) + {r.url}
  {
    hide TargetOf;
    var after := log + [r];
    forall i | 0 <= i < |log|
      ensures after[i] == log[i] && log[i].url != r.url
    {
      assert log[i].url in Urls(log);
    }
    assert r in after && forall q | q in log :: q in after;
  }

  /** A log stays answered with another reply of the network. */
  lemma AnsweredSoFar(network: Network, earlier: nat, log: seq<Request>, more: seq<Request>)
    requires log == [] || Answered(network, earlier, log)
    requires |more| <= 1 && forall r | r in more :: r.reply == network.serve(earlier + |log|, r.url)
    ensures Answered(network, earlier, log + more)
  {
  }

  lemma RequestsSnoc(world: World, allowNonPublic: bool, asked: seq<Query>, start: nat, log: seq<Request>, r: Request)
    requires RequestsOk(world, allowNonPublic, asked, start, log)
    requires RequestOk(world, allowNonPublic, asked, Since(start, log, |log|), r)
    ensures RequestsOk(world, allowNonPublic, asked, start, log + [r])
  {
    hide RequestOk;
    var all := log + [r];
    forall i | 0 <= i < |all|
      ensures RequestOk(world, allowNonPublic, asked, Since(start, all, i), all[i])
    {
      assert all[i] == if i < |log| then log[i] else r;
      assert Since(start, all, i) == Since(start, log, i);
    }
  }

  /**
   The documentation-page part of `check_link`: the redirect loop. `log` is everything that is sent. The
   result is what the last reply means, unless the next page may not be requested.
   */
  method FollowLink(policy: AddressPolicy, url: Url, maxRedirects: nat)
    returns (result: Result, ghost log: seq<Request>)
    requires policy.Valid()
    modifies policy, policy.network
    ensures policy.Valid() && old(policy.network.asked) <= policy.network.asked
    ensures policy.network.sent == old(policy.network.sent) + log
    ensures Answered(policy.network, |old(policy.network.sent)|, log)
    ensures |log| <= maxRedirects + 1 && Distinct(log) && Chain(policy.world, url, log)
    ensures RequestsOk(policy.world, policy.allowNonPublic, policy.network.asked, |old(policy.network.asked)|, log)
    ensures PageResult(policy, url, maxRedirects, log, result)
    ensures result == Raised <==> Unparsable(policy.world, log)
    ensures result == Good <==> Arrived(log)
    ensures log != [] ==>
              var reply := log[|log| - 1].reply;
              && (result == Inconclusive <==> reply == ErrorStatus(429) || (reply.Status? && reply.code == 429))
              && (reply.ErrorStatus? && reply.errorCode != 429 ==> result == Failure(HttpStatus))
              && (reply.Status? && reply.code !in {200, 301, 302, 303, 307, 308, 429} ==> result == Failure(HttpStatus))
              && (reply.Status? && reply.code in {301, 302, 303, 307, 308} && reply.location in {None, Some("")} ==>
                    result == Failure(MissingLocation))
              && (reply.TimedOut? ==> result == Failure(Timeout))
              && (reply.Unreachable? ==> result == Failure(NetworkError))
              && (reply.Broken? ==> result == Failure(OtherError))
    ensures log == [] ==> result.Failure?
  {
    hide RequestOk, RequestsOk, Distinct, Chain, Target, HttpUrl, IsRedirect, Redirects, Urls, Blocked;
    hide Unparsable, Arrived, AddressPolicy.Valid, Report, Meaning, Continues, Answered, Sound, TargetOf, PageResult;
    var world := policy.world;
    var current := world.strip(url);
    var visited: set<Url> := {};
    var followed := 0;
    log := [];
    ghost var start := |policy.network.asked|;
    NothingYet(world, policy.allowNonPublic, url, policy.network.asked);
    AnsweredSoFar(policy.network, |policy.network.sent|, log, []);
    assert log + [] == log;
    while true
      invariant policy.Valid() && 0 <= followed <= maxRedirects && |log| == followed
      invariant policy.network.sent == old(policy.network.sent) + log
      invariant old(policy.network.asked) <= policy.network.asked
      invariant Answered(policy.network, |old(policy.network.sent)|, log)
      invariant Sound(world, policy.allowNonPublic, policy.network.asked, start, url, log)
      invariant visited == Urls(log) && current !in visited
      invariant if log == [] then current == world.strip(url) else TargetOf(world, log[|log| - 1]) == Some(current)
      invariant log != [] ==> Continues(world, log) && !Unparsable(world, log) && !Arrived(log)
      decreases maxRedirects - followed
    {
      ghost var asked := policy.network.asked;
      var refused, reply := Hop(policy, current);
      if refused.Some? {
        SoundMeans(world, policy.allowNonPublic, asked, policy.network.asked, start, url, log);
        result := refused.value;
        PageEnds(policy, url, maxRedirects, log, current, result);
        break;
      }
      visited := visited + {current};
      ghost var request := policy.network.sent[|old(policy.network.sent)| + |log|];
      SoundGrows(world, policy.allowNonPublic, asked, policy.network.asked, start, url, log, request);
      AnsweredSoFar(policy.network, |old(policy.network.sent)|, log, [request]);
      log := log + [request];
      SoundMeans(world, policy.allowNonPublic, policy.network.asked, policy.network.asked, start, url, log);
      MeaningExactly(world, log);
      var final, next := NextUrl(world, current, reply, visited);
      TurnMeans(world, log, final, next);
      if final.Some? {
        result := final.value;
        PageEnds(policy, url, maxRedirects, log, current, result);
        break;
      }
      followed := followed + 1;
      if followed > maxRedirects {
        result := Failure(TooManyRedirects);
        PageEnds(policy, url, maxRedirects, log, next, result);
        break;
      }
      current := next;
    }
    if log != [] {
      ByStatus(world, log, result);
    }
  }

  // ---------------------------------------------------------------- services

  /** How the reply of an RPC service is reported: only status 200 with a good answer is one. */
  function ServiceReport(world: World, url: Url, reply: Reply): Result {
    if !reply.Status? then Report(reply)
    else if reply.code != 200 then Failure(HttpStatus)
    else
      match reply.body
      case BodyTimedOut => Failure(Timeout)
      case BodyBroken => Failure(OtherError)
      case Content(data) => if world.rpcAnswer(url, data) then Good else Failure(ServiceAnswer)
  }

  /** `_service_url_problem`: whether a URL is more, or other, than the root of an HTTPS origin. */
  predicate ServiceProblem(parts: Parts) {
    if parts.scheme != "https" || parts.port.None? then true
    else
      || parts.port.value !in {None, Some(443)} || parts.path !in {"", "/"}
      || parts.query != "" || parts.fragment != ""
  }

  /** The result is what the reply means, unless the URL is not one of a service or its host is not allowed. */
  ghost predicate ServiceResult(policy: AddressPolicy, url: Url, log: seq<Request>, result: Result)
    requires HttpUrl(policy.world, url) && policy.world.split(url).value.host.Some?
    reads policy, policy.network
  {
    var host := policy.world.split(url).value.host.value;
    if ServiceProblem(policy.world.split(url).value) then log == [] && result == Failure(ServiceUrl)
    else if log != [] then result == ServiceReport(policy.world, url, log[0].reply)
    else
      || Denied(policy.world, policy.allowNonPublic, host, policy.network.asked, result)
      || (Proxied(policy, url, host) && result in {Failure(RefusedAddress), Failure(NetworkError)})
  }

  /** `_check_rpc_service`: one request, only to a service URL whose host is contactable. */
  method CheckRpcService(policy: AddressPolicy, url: Url, host: Host) returns (result: Result, ghost log: seq<Request>)
    requires policy.Valid() && HttpUrl(policy.world, url) && policy.world.split(url).value.host == Some(host)
    modifies policy, policy.network
    ensures policy.Valid() && old(policy.network.asked) <= policy.network.asked
    ensures policy.network.sent == old(policy.network.sent) + log && |log| <= 1
    ensures Answered(policy.network, |old(policy.network.sent)|, log)
    ensures RequestsOk(policy.world, policy.allowNonPublic, policy.network.asked, |old(policy.network.asked)|, log)
    ensures ServiceResult(policy, url, log, result) && (log != [] ==> log[0].url == url)
    ensures !ServiceProblem(policy.world.split(url).value) && policy.world.literal(host).None? ==>
              && |old(policy.network.asked)| < |policy.network.asked|
              && var first := policy.network.asked[|old(policy.network.asked)|]; first.host == host && first.port == 443
    ensures var Parts(scheme, _, port, path, query, fragment) := policy.world.split(url).value;
            result == Failure(ServiceUrl) <==>
              !(scheme == "https" && (port == Some(None) || port == Some(Some(443))) && (path == "" || path == "/")
                && query == "" && fragment == "")
    ensures result != Raised && (result == Good ==> Arrived(log)) && (log == [] ==> result.Failure?)
    ensures log != [] ==>
              var reply := log[0].reply;
              && (result == Inconclusive <==> reply == ErrorStatus(429))
              && (reply.ErrorStatus? && reply.errorCode != 429 ==> result == Failure(HttpStatus))
              && (reply.Status? && reply.code != 200 ==> result == Failure(HttpStatus))
              && (reply.Status? && reply.code == 200 && reply.body.Content? ==>
                    result == if policy.world.rpcAnswer(url, reply.body.data) then Good else Failure(ServiceAnswer))
              && (reply.TimedOut? || (reply.Status? && reply.code == 200 && reply.body.BodyTimedOut?) ==>
                    result == Failure(Timeout))
              && (reply.Unreachable? ==> result == Failure(NetworkError))
              && (reply.Broken? || (reply.Status? && reply.code == 200 && reply.body.BodyBroken?) ==>
                    result == Failure(OtherError))
  {
    hide Judged, Vetted, Cleared, RequestOk, Denied;
    log := [];
    if ServiceProblem(policy.world.split(url).value) {
      return Failure(ServiceUrl), log;
    }
    ghost var before := policy.network.asked;
    var authorization := policy.Authorize(host, 443);
    ghost var asked := policy.network.asked;
    JudgedGrows(policy.world, policy.allowNonPublic, host, 443, before, asked, authorization);
    match authorization {
      case NonPublic => return Failure(RefusedAddress), log;
      case ResolveFailed => return Failure(NetworkError), log;
      case Granted(address) =>
        JudgedIsVetted(policy.world, policy.allowNonPublic, host, 443, before, asked, authorization);
        SliceToEnd(asked, |before|);
        var refused, reply := Open(policy, url, address, |before|);
        if refused.Some? {
          return refused.value, log;
        }
        log := [policy.network.sent[|old(policy.network.sent)|]];
        match reply {
          case ErrorStatus(code) => result := if code == 429 then Inconclusive else Failure(HttpStatus);
          case TimedOut => result := Failure(Timeout);
          case Unreachable => result := Failure(NetworkError);
          case Broken => result := Failure(OtherError);
          case Status(code, _, body) =>
            if code != 200 {
              return Failure(HttpStatus), log;
            }
            match body {
              case BodyTimedOut => result := Failure(Timeout);
              case BodyBroken => result := Failure(OtherError);
              case Content(data) =>
                result := if policy.world.rpcAnswer(url, data) then Good else Failure(ServiceAnswer);
            }
        }
    }
  }

  /** An HTTP URL on a host with a given role. */
  predicate OnHost(world: World, url: Url, role: Host -> bool) {
    HttpUrl(world, url) && HostName(world, url).Some? && role(HostName(world, url).value)
  }

  /**
   `check_link`: at most `maxRedirects + 1` requests are sent, to pairwise distinct HTTP URLs, every one
   to an address from answers that were all allowed; under the strict policy it is routable. A funding
   service is never requested at all. An error escapes exactly on an unparsable redirect of a page.
   */
  method CheckLink(policy: AddressPolicy, url: Url, maxRedirects: nat)
    returns (result: Result, ghost log: seq<Request>)
    requires policy.Valid()
    modifies policy, policy.network
    ensures policy.Valid() && old(policy.network.asked) <= policy.network.asked
    ensures policy.network.sent == old(policy.network.sent) + log
    ensures Answered(policy.network, |old(policy.network.sent)|, log)
    ensures |log| <= maxRedirects + 1 && Distinct(log) && Chain(policy.world, url, log)
    ensures RequestsOk(policy.world, policy.allowNonPublic, policy.network.asked, |old(policy.network.asked)|, log)
    ensures !policy.allowNonPublic ==> forall r | r in log :: policy.world.routable(r.dialled)
    ensures var world, page := policy.world, policy.world.strip(url);
            && (result == Good ==> Arrived(log))
            && (result == Raised <==> Unparsable(world, log) && !OnHost(world, page, world.rpcService))
            && (OnHost(world, page, world.rpcService) ==> |log| <= 1)
            && (OnHost(world, page, world.friendbot) && !OnHost(world, page, world.rpcService) ==> log == [])
            && (if OnHost(world, page, world.rpcService) then ServiceResult(policy, page, log, result)
                else if OnHost(world, page, world.friendbot) then
                  result == if ServiceProblem(world.split(page).value) then Failure(ServiceUrl) else Inconclusive
                else PageResult(policy, url, maxRedirects, log, result))
    ensures log != [] ==>
              var reply := log[|log| - 1].reply;
              var service := OnHost(policy.world, policy.world.strip(url), policy.world.rpcService);
              && (result == Inconclusive <==>
                    reply == ErrorStatus(429) || (!service && reply.Status? && reply.code == 429))
              && (reply.ErrorStatus? && reply.errorCode != 429 ==> result == Failure(HttpStatus))
              && (reply.Status? && reply.code !in {200, 301, 302, 303, 307, 308, 429} ==> result == Failure(HttpStatus))
              && (reply.Status? && reply.code in {301, 302, 303, 307, 308} && reply.location in {None, Some("")} ==>
                    result == if service then Failure(HttpStatus) else Failure(MissingLocation))
              && (reply.TimedOut? ==> result == Failure(Timeout))
              && (reply.Unreachable? ==> result == Failure(NetworkError))
              && (reply.Broken? ==> result == Failure(OtherError))
  {
    hide RequestsOk, RequestOk, AddressPolicy.Valid, Answered, Distinct, Chain, Unparsable, Arrived, Blocked, Meaning;
    hide Continues, ServiceResult, PageResult;
    log := [];
    var world := policy.world;
    NothingSent(policy, url);
    var sanitized := world.strip(url);
    var parts := world.split(sanitized);
    if parts.None? {
      return Failure(InvalidUrl), log;
    }
    if parts.value.scheme !in {"http", "https"} {
      return Failure(NonHttpScheme), log;
    }
    if parts.value.host.None? {
      return Failure(MissingHost), log;
    }
    var host := world.lower(parts.value.host.value);
    if world.rpcService(host) {
      result, log := CheckRpcService(policy, sanitized, parts.value.host.value);
      OneRequest(world, url, log);
    } else if world.friendbot(host) {
      result := if ServiceProblem(parts.value) then Failure(ServiceUrl) else Inconclusive;
    } else {
      result, log := FollowLink(policy, url, maxRedirects);
    }
    AllRoutable(world, policy.allowNonPublic, policy.network.asked, |old(policy.network.asked)|, log);
  }

  lemma NothingSent(policy: AddressPolicy, url: Url)
    ensures Distinct([]) && Chain(policy.world, url, []) && Answered(policy.network, |policy.network.sent|, [])
    ensures RequestsOk(policy.world, policy.allowNonPublic, policy.network.asked, |policy.network.asked|, [])
    ensures !Unparsable(policy.world, []) && !Arrived([])
    ensures forall max: nat, result ::
              Blocked(policy, policy.world.strip(url), result) ==> PageResult(policy, url, max, [], result)
    ensures forall problem | Malformed(policy.world, policy.world.strip(url)) == Some(problem) ::
              Blocked(policy, policy.world.strip(url), Failure(problem))
  {
  }

  lemma OneRequest(world: World, url: Url, log: seq<Request>)
    requires |log| <= 1 && (log != [] ==> log[0].url == world.strip(url))
    ensures Distinct(log) && Chain(world, url, log)
  {
  }

  lemma AllRoutable(world: World, allowNonPublic: bool, asked: seq<Query>, start: nat, log: seq<Request>)
    requires RequestsOk(world, allowNonPublic, asked, start, log)
    ensures !allowNonPublic ==> forall r | r in log :: world.routable(r.dialled)
  {
    if !allowNonPublic {
      forall i | 0 <= i < |log|
        ensures world.routable(log[i].dialled)
      {
        var r := log[i];
        assert RequestOk(world, false, asked, Since(start, log, i), r);
        VettedIsRoutable(world, asked[0..r.queries], world.lower(r.dialHost), r.dialled);
      }
    }
  }

  /** A run that ends in an error nothing catches: one page, redirected to something that is no URL. */
  method UnparsableRedirect() returns (result: Result)
    ensures result == Raised
  {
    var world := World(
      split := url => Some(Parts("https", Some("docs.example"), Some(None), "/", "", "")),
      strip := url => url,
      join := (url, location) => None,
      lower := host => host,
      literal := host => Some("192.0.2.1"),
      routable := a => true,
      rpcService := host => false,
      friendbot := host => false,
      rpcAnswer := (url, data) => false);
    var network := new Network(
      (n, host, port) => NoAnswer,
      (n, url) => ("docs.example", 443),
      (n, url) => Status(302, Some("http://["), BodyBroken));
    var policy := new AddressPolicy(world, network, false);
    ghost var log;
    result, log := CheckLink(policy, "https://docs.example/", 5);
    assert Malformed(world, "https://docs.example/") == None;
  }
}
