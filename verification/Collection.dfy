/** How the aggregator collects the members' responses: in order of arrival, until it has threshold
    of them or can no longer reach the threshold. */
module Collection {
  import opened Bytes
  import opened Results
  import opened Polynomials
  import opened Sequences
  import opened Ibe
  import opened ElGamal
  import opened Aggregator

  datatype ErrorResponse = ErrorResponse(error: string, message: string)

  /** What arrives from a member: a response that passed verification, or an error. */
  datatype Arrival<S> = Answer(party: nat, response: Response<S>) | Failure(error: ErrorResponse)

  function Answers<S(!new)>(arrivals: seq<Arrival<S>>): seq<(nat, Response<S>)> {
    if |arrivals| == 0 then []
    else
      var n := |arrivals| - 1;
      Answers(arrivals[..n]) + (if arrivals[n].Answer? then [(arrivals[n].party, arrivals[n].response)] else [])
  }

  function Failures<S(!new)>(arrivals: seq<Arrival<S>>): seq<ErrorResponse> {
    if |arrivals| == 0 then []
    else
      var n := |arrivals| - 1;
      Failures(arrivals[..n]) + (if arrivals[n].Failure? then [arrivals[n].error] else [])
  }

  /** The answers are the answers among the arrivals, and the failures their failures. */
  lemma {:induction false} AnswersAreArrivals<S(!new)>(arrivals: seq<Arrival<S>>)
    ensures forall party: nat, response ::
      (party, response) in Answers(arrivals) <==> Answer(party, response) in arrivals
    ensures forall e :: e in Failures(arrivals) <==> Failure(e) in arrivals
  {
    if |arrivals| > 0 {
      var init, last := arrivals[..|arrivals| - 1], arrivals[|arrivals| - 1];
      AnswersAreArrivals(init);
      assert arrivals == init + [last];
    }
  }

  lemma {:induction false} EveryArrivalCounts<S(!new)>(arrivals: seq<Arrival<S>>)
    ensures |Answers(arrivals)| + |Failures(arrivals)| == |arrivals|
  {
    if |arrivals| > 0 {
      EveryArrivalCounts(arrivals[..|arrivals| - 1]);
    }
  }

  /** The answers of a prefix come first, and the rest adds at most its length. */
  lemma {:induction false} AnswersOfPrefix<S(!new)>(arrivals: seq<Arrival<S>>, n: nat)
    requires n <= |arrivals|
    ensures Answers(arrivals[..n]) <= Answers(arrivals)
    ensures |Answers(arrivals)| <= |Answers(arrivals[..n])| + |arrivals| - n
  {
    if n == |arrivals| {
      assert arrivals[..n] == arrivals;
    } else {
      var init := arrivals[..|arrivals| - 1];
      AnswersOfPrefix(init, n);
      assert init[..n] == arrivals[..n];
    }
  }

  lemma NextArrival<S(!new)>(arrivals: seq<Arrival<S>>, n: nat)
    requires n < |arrivals|
    ensures
      match arrivals[n]
      case Answer(party, response) =>
        && Answers(arrivals[..n + 1]) == Answers(arrivals[..n]) + [(party, response)]
        && Failures(arrivals[..n + 1]) == Failures(arrivals[..n])
      case Failure(e) =>
        && Answers(arrivals[..n + 1]) == Answers(arrivals[..n])
        && Failures(arrivals[..n + 1]) == Failures(arrivals[..n]) + [e]
  {
    assert arrivals[..n + 1][..n] == arrivals[..n];
  }

  /** How many answers end the collection: the loop looks at the threshold only after an answer, so a
      threshold of zero is met by the first one. */
  function Enough(threshold: nat): (n: nat)
    ensures n > 0 && n >= threshold
  {
    if threshold == 0 then 1 else threshold
  }

  /** After n arrivals it is not yet decided whether the threshold is reached. */
  ghost predicate Undecided<S(!new)>(threshold: nat, arrivals: seq<Arrival<S>>, n: nat)
    requires n <= |arrivals|
  {
    var got := |Answers(arrivals[..n])|;
    got < Enough(threshold) && threshold <= got + |arrivals| - n
  }

  /** The collection ends after the first n arrivals: at the first one that decides, or with the last. */
  ghost predicate StopsAfter<S(!new)>(threshold: nat, arrivals: seq<Arrival<S>>, n: nat) {
    && n <= |arrivals|
    && (forall m :: 0 < m < n ==> Undecided(threshold, arrivals, m))
    && (n < |arrivals| ==> n > 0 && !Undecided(threshold, arrivals, n))
  }

  /** One arrival for each member of the committee. The loop reads a prefix of the arrivals, the
      shortest one of at least one arrival that decides, and ends with exactly threshold responses
      if and only if at least threshold members answer; with threshold zero, it ends with one. */
  method Collect<S(!new)>(threshold: nat, arrivals: seq<Arrival<S>>)
    returns (responses: seq<(nat, Response<S>)>, errors: seq<ErrorResponse>, completed: nat)
    ensures StopsAfter(threshold, arrivals, completed)
    ensures responses == Answers(arrivals[..completed]) && errors == Failures(arrivals[..completed])
    ensures |responses| <= Enough(threshold)
    ensures |responses| == Enough(threshold) <==> |Answers(arrivals)| >= Enough(threshold)
  {
    responses, errors, completed := [], [], 0;
    while completed < |arrivals|
      invariant completed <= |arrivals|
      invariant responses == Answers(arrivals[..completed]) && errors == Failures(arrivals[..completed])
      invariant forall n :: 0 < n <= completed ==> Undecided(threshold, arrivals, n)
      invariant |responses| < Enough(threshold)
    {
      var result := arrivals[completed];
      NextArrival(arrivals, completed);
      completed := completed + 1;
      match result {
        case Answer(party, response) =>
          responses := responses + [(party, response)];
          if |responses| >= threshold {
            break;
          }
        case Failure(e) =>
          errors := errors + [e];
      }
      var tasksRemaining := |arrivals| - completed;
      if |responses| + tasksRemaining < threshold {
        break;
      }
    }
    AnswersOfPrefix(arrivals, completed);
    assert arrivals[..|arrivals|] == arrivals;
  }

  // ----- The error of a failed collection

  function Count(errors: seq<ErrorResponse>, kind: string): nat {
    if |errors| == 0 then 0
    else Count(errors[..|errors| - 1], kind) + (if errors[|errors| - 1].error == kind then 1 else 0)
  }

  ghost predicate FirstOfKind(errors: seq<ErrorResponse>, e: ErrorResponse) {
    exists i :: 0 <= i < |errors| && errors[i] == e && forall j :: 0 <= j < i ==> errors[j].error != e.error
  }

  function Kinds(errors: seq<ErrorResponse>): seq<string> {
    seq(|errors|, i requires 0 <= i < |errors| => errors[i].error)
  }

  /** A collected error, the first of its kind, and no kind is more frequent. */
  ghost predicate IsMajority(errors: seq<ErrorResponse>, e: ErrorResponse) {
    FirstOfKind(errors, e) && forall kind :: multiset(Kinds(errors))[kind] <= multiset(Kinds(errors))[e.error]
  }

  /** The count of a kind is its multiplicity among the kinds of the errors. */
  lemma {:induction false} CountIsMultiplicity(errors: seq<ErrorResponse>, kind: string)
    ensures Count(errors, kind) == multiset(Kinds(errors))[kind]
  {
    if |errors| > 0 {
      var n := |errors| - 1;
      CountIsMultiplicity(errors[..n], kind);
      assert Kinds(errors) == Kinds(errors[..n]) + [errors[n].error];
    }
  }

  /** What the counting map holds after the given errors. */
  ghost predicate Counted(counts: map<string, (nat, ErrorResponse)>, errors: seq<ErrorResponse>) {
    && (forall kind :: kind in counts <==> Count(errors, kind) > 0)
    && (forall kind :: kind in counts ==>
          counts[kind].0 == Count(errors, kind) && counts[kind].1.error == kind && FirstOfKind(errors, counts[kind].1))
  }

  lemma {:induction false} NotCounted(errors: seq<ErrorResponse>, kind: string)
    requires Count(errors, kind) == 0
    ensures forall j :: 0 <= j < |errors| ==> errors[j].error != kind
  {
    if |errors| > 0 {
      NotCounted(errors[..|errors| - 1], kind);
    }
  }

  lemma FirstOfKindExtends(errors: seq<ErrorResponse>, e: ErrorResponse, next: ErrorResponse)
    requires FirstOfKind(errors, e)
    ensures FirstOfKind(errors + [next], e)
  {
    var i :| 0 <= i < |errors| && errors[i] == e && forall j :: 0 <= j < i ==> errors[j].error != e.error;
    assert (errors + [next])[i] == e && forall j :: 0 <= j < i ==> (errors + [next])[j].error != e.error;
  }

  lemma FirstOfItsKind(errors: seq<ErrorResponse>, next: ErrorResponse)
    requires Count(errors, next.error) == 0
    ensures FirstOfKind(errors + [next], next)
  {
    NotCounted(errors, next.error);
    var all := errors + [next];
    assert all[|errors|] == next && forall j :: 0 <= j < |errors| ==> all[j].error != next.error;
  }

  method CountErrors(errors: seq<ErrorResponse>) returns (counts: map<string, (nat, ErrorResponse)>)
    ensures Counted(counts, errors)
  {
    counts := map[];
    for i := 0 to |errors|
      invariant Counted(counts, errors[..i])
    {
      var e := errors[i];
      assert errors[..i + 1] == errors[..i] + [e];
      assert errors[..i + 1][..i] == errors[..i];
      forall kind
        ensures Count(errors[..i + 1], kind) == Count(errors[..i], kind) + (if e.error == kind then 1 else 0)
      {
      }
      forall kind | kind in counts ensures FirstOfKind(errors[..i + 1], counts[kind].1) {
        FirstOfKindExtends(errors[..i], counts[kind].1, e);
      }
      if e.error in counts {
        var (count, first) := counts[e.error];
        counts := counts[e.error := (count + 1, first)];
      } else {
        FirstOfItsKind(errors[..i], e);
        counts := counts[e.error := (1, e)];
      }
    }
    assert errors[..|errors|] == errors;
  }

  lemma MajorityFromCounts(errors: seq<ErrorResponse>, e: ErrorResponse)
    requires FirstOfKind(errors, e)
    requires forall kind :: Count(errors, kind) <= Count(errors, e.error)
    ensures IsMajority(errors, e)
  {
    forall kind ensures multiset(Kinds(errors))[kind] <= multiset(Kinds(errors))[e.error] {
      CountIsMultiplicity(errors, kind);
      CountIsMultiplicity(errors, e.error);
    }
  }

  /** The entries of the map come in any order; the last of the largest counts wins. */
  method HandleInsufficientResponses(errors: seq<ErrorResponse>, generic: ErrorResponse) returns (e: ErrorResponse)
    ensures |errors| > 0 ==> IsMajority(errors, e)
    ensures |errors| == 0 ==> e == generic
  {
    if |errors| == 0 {
      return generic;
    }
    var counts := CountErrors(errors);
    assert Count(errors, errors[|errors| - 1].error) > 0;
    var kind :| kind in counts;
    var best, remaining := kind, counts.Keys - {kind};
    while remaining != {}
      invariant remaining <= counts.Keys && best in counts
      invariant forall k :: k in counts && k !in remaining ==> counts[k].0 <= counts[best].0
      decreases remaining
    {
      var k :| k in remaining;
      if counts[k].0 >= counts[best].0 {
        best := k;
      }
      remaining := remaining - {k};
    }
    e := counts[best].1;
    MajorityFromCounts(errors, e);
  }

  // ----- A request from start to end

  datatype FetchOutcome<S> = Fetched(keys: Response<S>) | Refused(error: ErrorResponse)

  /** The answers were verified against the partial keys of distinct members, which lie on a
      polynomial with at most threshold coefficients. */
  ghost predicate FromCommittee<S(!new)>(p: Primitives<S>, embed: nat -> S, threshold: nat,
                                         answers: seq<(nat, Response<S>)>, secretKey: S, poly: seq<S>,
                                         expected: set<KeyId>) {
    && Embeds(p.scalars, embed)
    && |poly| <= threshold <= U16_MAX
    && Distinct(Senders(answers)) && (forall i :: 0 <= i < |answers| ==> answers[i].0 < U16_MAX)
    && AllVerified(p, embed, answers, secretKey, poly, expected)
  }

  /** The expected ids, each once, and each key decrypts to the user key of the master key. */
  ghost predicate WholeKeys<S(!new)>(p: Primitives<S>, keys: Response<S>, secretKey: S, masterKey: S,
                                     expected: set<KeyId>) {
    && Distinct(Ids(keys)) && IdSet(keys) == expected
    && forall i :: 0 <= i < |keys| ==>
         ElGamal.Decrypt(p, secretKey, keys[i].encryptedKey) == Extract(p, masterKey, keys[i].id)
  }

  lemma PrefixFromCommittee<S(!new)>(p: Primitives<S>, embed: nat -> S, threshold: nat,
                                     answers: seq<(nat, Response<S>)>, prefix: seq<(nat, Response<S>)>, secretKey: S,
                                     poly: seq<S>, expected: set<KeyId>)
    requires prefix <= answers
    requires FromCommittee(p, embed, threshold, answers, secretKey, poly, expected)
    ensures FromCommittee(p, embed, threshold, prefix, secretKey, poly, expected)
  {
    forall i | 0 <= i < |prefix| ensures prefix[i] == answers[i] {
    }
    forall i, j | 0 <= i < j < |prefix| ensures Senders(prefix)[i] != Senders(prefix)[j] {
      assert Senders(answers)[i] != Senders(answers)[j];
    }
  }

  lemma AggregatesAreWhole<S(!new)>(p: Primitives<S>, embed: nat -> S, threshold: nat,
                                    responses: seq<(nat, Response<S>)>, keys: Response<S>, secretKey: S, poly: seq<S>,
                                    expected: set<KeyId>)
    requires p.Valid() && 0 < threshold == |responses|
    requires FromCommittee(p, embed, threshold, responses, secretKey, poly, expected)
    requires Aggregates(p.scalars, embed, threshold, responses, keys)
    ensures WholeKeys(p, keys, secretKey, Eval(p.scalars, poly, p.scalars.zero), expected)
  {
    AllIdsExpected(p, embed, responses, secretKey, poly, expected);
    forall i | 0 <= i < |keys|
      ensures ElGamal.Decrypt(p, secretKey, keys[i].encryptedKey)
          == Extract(p, Eval(p.scalars, poly, p.scalars.zero), keys[i].id)
    {
      assert keys[i].id in IdSet(keys);
      assert AggregatedKey(p.scalars, embed, threshold, responses, keys[i]);
      VerifiedResponsesAggregate(p, embed, threshold, responses, secretKey, poly, expected, keys[i].id);
    }
  }

  lemma NoIdsNoKeys<S(!new)>(keys: Response<S>)
    ensures IdSet(keys) == {} <==> keys == []
  {
    if |keys| > 0 {
      assert keys[0].id in IdSet(keys);
    }
  }

  /** The answers collected from a committee aggregate to whole keys. */
  lemma CollectedAggregate<S(!new)>(p: Primitives<S>, embed: nat -> S, threshold: nat, arrivals: seq<Arrival<S>>,
                                    n: nat, aggregated: Result<Response<S>>, secretKey: S, poly: seq<S>,
                                    expected: set<KeyId>)
    requires p.Valid() && 0 < threshold && n <= |arrivals| && |Answers(arrivals[..n])| == threshold
    requires FromCommittee(p, embed, threshold, Answers(arrivals), secretKey, poly, expected)
    requires aggregated.Ok? ==> Aggregates(p.scalars, embed, threshold, Answers(arrivals[..n]), aggregated.value)
    requires aggregated.Err? ==>
      exists id :: id in AllIds(Answers(arrivals[..n]))
                   && Aggregated(p.scalars, embed, threshold, SharesFor(Answers(arrivals[..n]), id))
                   == Err(aggregated.error)
    ensures aggregated.Ok?
    ensures WholeKeys(p, aggregated.value, secretKey, Eval(p.scalars, poly, p.scalars.zero), expected)
  {
    var responses := Answers(arrivals[..n]);
    AnswersOfPrefix(arrivals, n);
    PrefixFromCommittee(p, embed, threshold, Answers(arrivals), responses, secretKey, poly, expected);
    if aggregated.Err? {
      var id :| id in AllIds(responses) && Aggregated(p.scalars, embed, threshold, SharesFor(responses, id)).Err?;
      VerifiedResponsesAggregate(p, embed, threshold, responses, secretKey, poly, expected, id);
      assert false;
    }
    AggregatesAreWhole(p, embed, threshold, responses, aggregated.value, secretKey, poly, expected);
  }

  /** For every order of arrival: with fewer than threshold answers the request is refused with a
      most frequent one of the errors collected when the loop stopped; with at least threshold answers
      from the committee, the user gets encryptions of exactly the expected keys of the committee's
      master key. A threshold of zero only succeeds when nobody answers. */
  method FetchKey<S(!new, ==)>(p: Primitives<S>, embed: nat -> S, threshold: nat, arrivals: seq<Arrival<S>>,
                               generic: ErrorResponse, aggregationFailed: ErrorResponse,
                               ghost secretKey: S, ghost poly: seq<S>, ghost expected: set<KeyId>)
    returns (outcome: FetchOutcome<S>, ghost completed: nat)
    requires p.Valid()
    ensures StopsAfter(threshold, arrivals, completed)
    ensures |Answers(arrivals)| < threshold ==>
      var errors := Failures(arrivals[..completed]);
      outcome.Refused? && if |errors| > 0 then IsMajority(errors, outcome.error) else outcome.error == generic
    ensures |Answers(arrivals)| < threshold <= |arrivals| ==> |Failures(arrivals[..completed])| > 0
    ensures 0 < threshold <= |Answers(arrivals)| ==>
      FromCommittee(p, embed, threshold, Answers(arrivals), secretKey, poly, expected) ==>
      outcome.Fetched? && WholeKeys(p, outcome.keys, secretKey, Eval(p.scalars, poly, p.scalars.zero), expected)
    ensures threshold == 0 ==> outcome == if |Answers(arrivals)| == 0 then Fetched([]) else Refused(aggregationFailed)
  {
    var responses, errors, n := Collect(threshold, arrivals);
    completed := n;
    EveryArrivalCounts(arrivals[..n]);
    AnswersOfPrefix(arrivals, n);
    if |responses| < threshold {
      var e := HandleInsufficientResponses(errors, generic);
      return Refused(e), n;
    }
    var aggregated := AggregateVerifiedEncryptedResponses(p.scalars, embed, threshold, responses);
    if threshold > 0 && FromCommittee(p, embed, threshold, Answers(arrivals), secretKey, poly, expected) {
      CollectedAggregate(p, embed, threshold, arrivals, n, aggregated, secretKey, poly, expected);
    }
    match aggregated
    case Ok(keys) =>
      NoIdsNoKeys(keys);
      return Fetched(keys), n;
    case Err(_) => return Refused(aggregationFailed), n;
  }
}
