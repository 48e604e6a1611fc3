/** The content-safety check of the moderation service: one call to the
    provider per attempt, a retry after a rate-limit answer with a delay
    that doubles per attempt, and the mapping of the provider's answer to
    the service's verdict. The provider is a sequence of per-attempt
    answers; the delays slept are recorded instead of slept. */
module ModerationService {
  import opened Js

  /** At most this many provider calls per request. */
  const MaxRetries: nat := 3
  /** The delay after the first rate-limited attempt, in milliseconds. */
  const InitialDelay: nat := 1000
  /** The HTTP status of a rate-limited provider call. */
  const TooManyRequests: int := 429

  /** The message of the TypeError raised when the provider answers with no
      result at all and `results[0].categories` is read. */
  const UndefinedResultMessage: string := "Cannot read properties of undefined (reading 'categories')"

  /** The provider's names for the eleven categories the service keeps. */
  const ProviderKeys: seq<string> := [
    "sexual", "hate", "harassment", "self-harm", "sexual/minors",
    "hate/threatening", "violence/graphic", "self-harm/intent",
    "self-harm/instructions", "harassment/threatening", "violence"]

  /** The service's names for the same categories, in the order in which
      the category record declares them. */
  const CategoryKeys: seq<string> := [
    "sexual", "hate", "harassment", "selfHarm", "sexualMinors",
    "hateThreatening", "violenceGraphic", "selfHarmIntent",
    "selfHarmInstructions", "harassmentThreatening", "violence"]

  /** The service's category record: eleven booleans. */
  datatype Categories = Categories(
    sexual: bool, hate: bool, harassment: bool, selfHarm: bool,
    sexualMinors: bool, hateThreatening: bool, violenceGraphic: bool,
    selfHarmIntent: bool, selfHarmInstructions: bool,
    harassmentThreatening: bool, violence: bool)

  /** The record's values in declaration order, which is the order in which
      `Object.entries` lists them. */
  function Values(c: Categories): (v: seq<bool>)
    ensures |v| == |CategoryKeys|
  {
    [c.sexual, c.hate, c.harassment, c.selfHarm, c.sexualMinors,
     c.hateThreatening, c.violenceGraphic, c.selfHarmIntent,
     c.selfHarmInstructions, c.harassmentThreatening, c.violence]
  }

  /** One entry of the provider's `results`. Its category map may carry
      more keys than the eleven the service reads. Scores are left out. */
  datatype ProviderResult = ProviderResult(flagged: bool, categories: map<string, bool>)

  /** A provider answer; "" stands for an absent or empty id or model. */
  datatype ProviderResponse = ProviderResponse(id: string, model: string, results: seq<ProviderResult>)

  /** What one provider call did: answered, or threw an error with an
      optional HTTP status. */
  datatype Attempt =
    | Answered(response: ProviderResponse)
    | Failed(status: Option<int>, message: string)

  datatype ModerationRequest = ModerationRequest(content: string, contentType: string)

  datatype ModerationResult = ModerationResult(
    id: string, model: string, flagged: bool, categories: Categories,
    approved: bool, flaggedCategories: seq<string>)

  datatype ModerationResponse = ModerationResponse(
    approved: bool, flagged: bool, flaggedCategories: seq<string>,
    details: ModerationResult)

  predicate RateLimited(a: Attempt)
  {
    a.Failed? && a.status == Some(TooManyRequests)
  }

  function Pow2(n: nat): (p: nat)
    ensures p >= 1
  {
    if n == 0 then 1 else 2 * Pow2(n - 1)
  }

  /** A missing provider key reads as undefined, which is falsy. */
  function ProviderFlag(m: map<string, bool>, key: string): bool
  {
    key in m && m[key]
  }

  /** The category record built from the provider's map: each service
      category takes the value of the provider key at the same position. */
  function MapCategories(m: map<string, bool>): Categories
  {
    Categories(
      ProviderFlag(m, "sexual"), ProviderFlag(m, "hate"),
      ProviderFlag(m, "harassment"), ProviderFlag(m, "self-harm"),
      ProviderFlag(m, "sexual/minors"), ProviderFlag(m, "hate/threatening"),
      ProviderFlag(m, "violence/graphic"), ProviderFlag(m, "self-harm/intent"),
      ProviderFlag(m, "self-harm/instructions"),
      ProviderFlag(m, "harassment/threatening"), ProviderFlag(m, "violence"))
  }

  lemma MapCategoriesByPosition(m: map<string, bool>)
    ensures forall i :: 0 <= i < |CategoryKeys| ==>
              Values(MapCategories(m))[i] == ProviderFlag(m, ProviderKeys[i])
  {
    ProviderKeysListed();
    var v := Values(MapCategories(m));
    assert v == seq(|CategoryKeys|, i requires 0 <= i < |CategoryKeys| => ProviderFlag(m, ProviderKeys[i]));
  }

  lemma ProviderKeysListed()
    ensures && ProviderKeys[0] == "sexual" && ProviderKeys[1] == "hate"
            && ProviderKeys[2] == "harassment" && ProviderKeys[3] == "self-harm"
            && ProviderKeys[4] == "sexual/minors" && ProviderKeys[5] == "hate/threatening"
            && ProviderKeys[6] == "violence/graphic" && ProviderKeys[7] == "self-harm/intent"
            && ProviderKeys[8] == "self-harm/instructions" && ProviderKeys[9] == "harassment/threatening"
            && ProviderKeys[10] == "violence"
  {
  }

  /** The positions of the true entries of flags, in increasing order. */
  function TrueIndices(flags: seq<bool>): (idx: seq<nat>)
    ensures forall j :: 0 <= j < |idx| ==> idx[j] < |flags| && flags[idx[j]]
    ensures forall j, k :: 0 <= j < k < |idx| ==> idx[j] < idx[k]
    ensures forall i :: 0 <= i < |flags| && flags[i] ==> i in idx
  {
    if flags == [] then []
    else
      var last := |flags| - 1;
      TrueIndices(flags[..last]) + (if flags[last] then [last] else [])
  }

  function Pick(keys: seq<string>, idx: seq<nat>): (r: seq<string>)
    requires forall j :: 0 <= j < |idx| ==> idx[j] < |keys|
    ensures |r| == |idx|
  {
    seq(|idx|, j requires 0 <= j < |idx| => keys[idx[j]])
  }

  /** The names of the categories whose value is true, in declaration order. */
  function FlaggedKeys(c: Categories): seq<string>
  {
    Pick(CategoryKeys, TrueIndices(Values(c)))
  }

  lemma CategoryKeysDistinct()
    ensures forall i, j :: 0 <= i < j < |CategoryKeys| ==> CategoryKeys[i] != CategoryKeys[j]
  {
  }

  /** A key is listed exactly when it names a category whose value is true. */
  lemma FlaggedKeysExact(c: Categories, k: string)
    ensures k in FlaggedKeys(c) <==>
            exists i :: 0 <= i < |CategoryKeys| && CategoryKeys[i] == k && Values(c)[i]
  {
    var idx := TrueIndices(Values(c));
    var r := FlaggedKeys(c);
    if k in r {
      var j :| 0 <= j < |r| && r[j] == k;
      assert CategoryKeys[idx[j]] == k && Values(c)[idx[j]];
    }
    if i :| 0 <= i < |CategoryKeys| && CategoryKeys[i] == k && Values(c)[i] {
      assert i in idx;
      var j :| 0 <= j < |idx| && idx[j] == i;
      assert r[j] == k;
    }
  }

  /** The position of k in keys, or |keys| when k is not there. */
  function IndexIn(keys: seq<string>, k: string): (n: nat)
    ensures n <= |keys|
    ensures n < |keys| ==> keys[n] == k
  {
    if keys == [] then 0
    else if keys[0] == k then 0
    else 1 + IndexIn(keys[1..], k)
  }

  lemma {:induction false} IndexInDistinct(keys: seq<string>, i: nat)
    requires i < |keys|
    requires forall p, q :: 0 <= p < q < |keys| ==> keys[p] != keys[q]
    ensures IndexIn(keys, keys[i]) == i
  {
    if i > 0 {
      assert keys[0] != keys[i];
      IndexInDistinct(keys[1..], i - 1);
    }
  }

  /** The listed keys keep the declaration order, so none is listed twice. */
  lemma FlaggedKeysOrdered(c: Categories)
    ensures forall p, q :: 0 <= p < q < |FlaggedKeys(c)| ==>
              IndexIn(CategoryKeys, FlaggedKeys(c)[p]) < IndexIn(CategoryKeys, FlaggedKeys(c)[q])
    ensures forall p, q :: 0 <= p < q < |FlaggedKeys(c)| ==> FlaggedKeys(c)[p] != FlaggedKeys(c)[q]
  {
    CategoryKeysDistinct();
    var idx := TrueIndices(Values(c));
    var r := FlaggedKeys(c);
    forall p, q | 0 <= p < q < |r|
      ensures IndexIn(CategoryKeys, r[p]) < IndexIn(CategoryKeys, r[q])
    {
      assert r[p] == CategoryKeys[idx[p]] && r[q] == CategoryKeys[idx[q]];
      IndexInDistinct(CategoryKeys, idx[p]);
      IndexInDistinct(CategoryKeys, idx[q]);
    }
  }

  /** One more entry examined: its name is appended exactly when it is true. */
  lemma FlaggedPrefixStep(values: seq<bool>, i: nat)
    requires i < |values| == |CategoryKeys|
    ensures Pick(CategoryKeys, TrueIndices(values[..i + 1]))
         == Pick(CategoryKeys, TrueIndices(values[..i])) + (if values[i] then [CategoryKeys[i]] else [])
  {
    var prefix := values[..i + 1];
    assert prefix[..i] == values[..i];
    var before := TrueIndices(values[..i]);
    assert TrueIndices(prefix) == before + (if values[i] then [i] else []);
  }

  /** Collects the names of the true categories by walking the record's
      entries and appending each true one, as the forEach/push loop does. */
  method CollectFlagged(c: Categories) returns (keys: seq<string>)
    ensures keys == FlaggedKeys(c)
  {
    var values := Values(c);
    keys := [];
    for i := 0 to |values|
      invariant keys == Pick(CategoryKeys, TrueIndices(values[..i]))
    {
      FlaggedPrefixStep(values, i);
      if values[i] {
        keys := keys + [CategoryKeys[i]];
      }
    }
    assert values[..|values|] == values;
  }

  /** The verdict the service builds from one provider result. */
  function ResponseOf(id: string, model: string, res: ProviderResult): ModerationResponse
  {
    var categories := MapCategories(res.categories);
    var flaggedCategories := FlaggedKeys(categories);
    ModerationResponse(
      !res.flagged, res.flagged, flaggedCategories,
      ModerationResult(OrElse(id, "unknown"), OrElse(model, "text-moderation-latest"),
                       res.flagged, categories, !res.flagged, flaggedCategories))
  }

  /** A verdict agrees with itself: approved is the negation of flagged,
      the details repeat the top-level fields, and the flagged categories
      are those of the details' record. */
  predicate Consistent(v: ModerationResponse)
  {
    && v.approved == !v.flagged
    && v.details.approved == v.approved
    && v.details.flagged == v.flagged
    && v.details.flaggedCategories == v.flaggedCategories
    && v.flaggedCategories == FlaggedKeys(v.details.categories)
  }

  lemma ResponseOfConsistent(id: string, model: string, res: ProviderResult)
    ensures Consistent(ResponseOf(id, model, res))
    ensures ResponseOf(id, model, res).approved <==> !res.flagged
    ensures ResponseOf(id, model, res).details.id != ""
    ensures ResponseOf(id, model, res).details.model != ""
    ensures ResponseOf(id, model, res).details.id == (if id != "" then id else "unknown")
    ensures ResponseOf(id, model, res).details.model == (if model != "" then model else "text-moderation-latest")
    ensures ResponseOf(id, model, res).details.categories == MapCategories(res.categories)
  {
  }

  /** Builds the verdict of one provider result, collecting the flagged
      categories with the loop. */
  method BuildResponse(id: string, model: string, res: ProviderResult) returns (v: ModerationResponse)
    ensures v == ResponseOf(id, model, res)
  {
    var categories := MapCategories(res.categories);
    var flaggedCategories := CollectFlagged(categories);
    var details := ModerationResult(OrElse(id, "unknown"), OrElse(model, "text-moderation-latest"),
                                    res.flagged, categories, !res.flagged, flaggedCategories);
    v := ModerationResponse(!res.flagged, res.flagged, flaggedCategories, details);
  }

  /** Moderates one content item. `replies[i]` is what the provider does on
      attempt i; `calls` counts the provider calls made and `sleeps` lists
      the delays waited, in order. */
  method ModerateContent(request: ModerationRequest, replies: seq<Attempt>)
    returns (r: Result<ModerationResponse, string>, calls: nat, sleeps: seq<nat>)
    requires |replies| >= MaxRetries
    ensures 1 <= calls <= MaxRetries
    ensures sleeps == [1000, 2000][..calls - 1]
    ensures forall i :: 0 <= i < calls - 1 ==> RateLimited(replies[i])
    ensures RateLimited(replies[calls - 1]) ==> calls == MaxRetries
    ensures replies[calls - 1].Failed? ==>
              r == Failure("Moderation failed: " + replies[calls - 1].message)
    ensures replies[calls - 1].Answered? && replies[calls - 1].response.results == [] ==>
              r == Failure("Moderation failed: " + UndefinedResultMessage)
    ensures replies[calls - 1].Answered? && replies[calls - 1].response.results != [] ==>
              var answer := replies[calls - 1].response;
              r == Success(ResponseOf(answer.id, answer.model, answer.results[0]))
    ensures r.Success? ==> Consistent(r.value)
  {
    var lastError := "";
    calls, sleeps := 0, [];
    for attempt := 0 to MaxRetries
      invariant attempt < MaxRetries
      invariant calls == attempt
      invariant sleeps == [1000, 2000][..attempt]
      invariant forall i :: 0 <= i < attempt ==> RateLimited(replies[i])
    {
      calls := calls + 1;
      match replies[attempt]
      case Answered(answer) =>
        if answer.results == [] {
          r := Failure("Moderation failed: " + UndefinedResultMessage);
          return;
        }
        var v := BuildResponse(answer.id, answer.model, answer.results[0]);
        ResponseOfConsistent(answer.id, answer.model, answer.results[0]);
        r := Success(v);
        return;
      case Failed(status, message) =>
        lastError := message;
        if status == Some(TooManyRequests) && attempt < MaxRetries - 1 {
          sleeps := sleeps + [InitialDelay * Pow2(attempt)];
          continue;
        }
        r := Failure("Moderation failed: " + message);
        return;
    }
    // Every attempt returns, throws, or continues to a next attempt that
    // exists, so the final rethrow of the last error cannot be reached.
    assert false;
    r := Failure(lastError);
  }

  /** Moderates several content items with one provider call per attempt,
      under the same retry policy as ModerateContent. */
  method ModerateBatch(contents: seq<string>, replies: seq<Attempt>)
    returns (r: Result<seq<ModerationResponse>, string>, calls: nat, sleeps: seq<nat>)
    requires |replies| >= MaxRetries
    ensures contents == [] ==> r == Success([]) && calls == 0 && sleeps == []
    ensures contents != [] ==> 1 <= calls <= MaxRetries
    ensures contents != [] ==> sleeps == [1000, 2000][..calls - 1]
    ensures forall i :: 0 <= i < calls - 1 ==> RateLimited(replies[i])
    ensures calls > 0 && RateLimited(replies[calls - 1]) ==> calls == MaxRetries
    ensures calls > 0 && replies[calls - 1].Failed? ==>
              r == Failure("Batch moderation failed: " + replies[calls - 1].message)
    ensures calls > 0 && replies[calls - 1].Answered? ==>
              var answer := replies[calls - 1].response;
              && r.Success?
              && |r.value| == |answer.results|
              && forall k :: 0 <= k < |answer.results| ==>
                   r.value[k] == ResponseOf(answer.id, answer.model, answer.results[k])
    ensures r.Success? ==> forall k :: 0 <= k < |r.value| ==> Consistent(r.value[k])
  {
    calls, sleeps := 0, [];
    if contents == [] {
      return Success([]), calls, sleeps;
    }
    var lastError := "";
    for attempt := 0 to MaxRetries
      invariant attempt < MaxRetries
      invariant calls == attempt
      invariant sleeps == [1000, 2000][..attempt]
      invariant forall i :: 0 <= i < attempt ==> RateLimited(replies[i])
    {
      calls := calls + 1;
      match replies[attempt]
      case Answered(answer) =>
        var verdicts: seq<ModerationResponse> := [];
        for k := 0 to |answer.results|
          invariant |verdicts| == k
          invariant forall m :: 0 <= m < k ==>
                      verdicts[m] == ResponseOf(answer.id, answer.model, answer.results[m])
                      && Consistent(verdicts[m])
        {
          var v := BuildResponse(answer.id, answer.model, answer.results[k]);
          ResponseOfConsistent(answer.id, answer.model, answer.results[k]);
          verdicts := verdicts + [v];
        }
        r := Success(verdicts);
        return;
      case Failed(status, message) =>
        lastError := message;
        if status == Some(TooManyRequests) && attempt < MaxRetries - 1 {
          sleeps := sleeps + [InitialDelay * Pow2(attempt)];
          continue;
        }
        r := Failure("Batch moderation failed: " + message);
        return;
    }
    assert false;
    r := Failure(lastError);
  }
}
