/**
 * The retrying recognition client, `GeminiModel.extract_text_from_image`.
 *
 * The external service (image decoding plus `generate_content`) is a
 * parameter: `service(n)` is what attempt number `n` (counting from 0)
 * produces. A reply is turned into plates by `Normalizer.Plates`.
 */
module Recognition {
  import opened Text
  import opened Normalizer

  /** What one attempt yields: an exception, or the text of the service's reply. */
  datatype Outcome = Throws | Reply(text: string)

  datatype Option<T> = None | Some(value: T)

  /** The default number of attempts. */
  const DefaultRetries: int := 3

  /** The fixed pause, in seconds, after each failed attempt that is not the last. */
  const BackoffSeconds: nat := 30

  /** Everything an invocation does that a caller can observe. */
  datatype Run = Run(result: Option<seq<string>>, calls: nat, sleeps: nat)

  /** An attempt that ends the loop: a reply the client accepts. */
  predicate Succeeds(o: Outcome) {
    o.Reply? && Accepts(o.text)
  }

  /** The number of attempts `range(retries)` allows. */
  function Budget(retries: int): (n: nat)
    ensures retries <= 0 ==> n == 0
    ensures retries > 0 ==> n == retries
  {
    if retries > 0 then retries else 0
  }

  /** The first attempt below `n` that succeeds, if there is one. */
  function FirstSuccess(service: nat -> Outcome, n: nat): (r: Option<nat>)
    ensures r.Some? ==> r.value < n && Succeeds(service(r.value))
    ensures r.Some? ==> forall j :: 0 <= j < r.value ==> !Succeeds(service(j))
    ensures r.None? <==> forall j :: 0 <= j < n ==> !Succeeds(service(j))
  {
    if n == 0 then None
    else
      match FirstSuccess(service, n - 1)
      case Some(k) => Some(k)
      case None => if Succeeds(service(n - 1)) then Some(n - 1) else None
  }

  /**
   * What an invocation with `retries` should do: stop at the first successful
   * attempt and return its plates, otherwise use up every attempt; pause once
   * after each failed attempt that is not the last.
   */
  function Expected(service: nat -> Outcome, retries: int): Run {
    var n := Budget(retries);
    match FirstSuccess(service, n)
    case Some(k) => Run(Some(Plates(service(k).text)), k + 1, k)
    case None => Run(None, n, if n == 0 then 0 else n - 1)
  }

  /**
   * `extract_text_from_image`: try the service up to `retries` times and return
   * the plates of the first accepted reply, or None. Also reports how many
   * attempts were made and how many backoff pauses were taken.
   */
  method ExtractTextFromImage(service: nat -> Outcome, retries: int)
    returns (result: Option<seq<string>>, calls: nat, sleeps: nat)
    ensures Run(result, calls, sleeps) == Expected(service, retries)
    ensures calls <= Budget(retries)
    ensures result.Some? ==>
              result.value != [] && forall k :: 0 <= k < |result.value| ==> IsPlate(result.value[k])
  {
    calls, sleeps := 0, 0;
    var retry := 0;
    while retry < retries
      invariant 0 <= retry <= Budget(retries)
      invariant FirstSuccess(service, retry) == None
      invariant calls == retry
      invariant sleeps == if 0 < retry == retries then retry - 1 else retry
    {
      calls := calls + 1;
      var outcome := service(retry);
      if outcome.Reply? {
        var text := Strip(outcome.text);
        if text != [] && HasAlnum(text) {
          var plates := CleanLines(Split(text));
          assert Succeeds(outcome) && FirstSuccess(service, retry + 1) == Some(retry);
          FirstSuccessPrefix(service, retry + 1, Budget(retries));
          AcceptedHasPlates(outcome.text);
          result := if plates != [] then Some(plates) else None;
          return;
        }
      }
      // the exception handler: a thrown error or a rejected reply
      if retry < retries - 1 {
        sleeps := sleeps + 1;
      }
      retry := retry + 1;
    }
    result := None;
  }

  /** No attempt is made, and nothing is returned, when `retries` is not positive. */
  lemma NoAttemptsWithoutBudget(service: nat -> Outcome, retries: int)
    requires retries <= 0
    ensures Expected(service, retries) == Run(None, 0, 0)
  {
  }

  /** At most `retries` attempts, and one pause between consecutive attempts. */
  lemma {:induction false} CallsAndSleeps(service: nat -> Outcome, retries: int)
    ensures Expected(service, retries).calls <= Budget(retries)
    ensures Expected(service, retries).sleeps ==
              if Expected(service, retries).calls == 0 then 0 else Expected(service, retries).calls - 1
  {
    var n := Budget(retries);
    match FirstSuccess(service, n)
    case Some(k) =>
    case None =>
  }

  /**
   * A result is returned exactly when some attempt within the budget succeeds,
   * and then it is the plates of the first such attempt, the last one made.
   */
  lemma FirstSuccessWins(service: nat -> Outcome, retries: int)
    ensures Expected(service, retries).result.Some? <==>
              exists k :: 0 <= k < Budget(retries) && Succeeds(service(k))
    ensures Expected(service, retries).result.Some? ==>
              var last := Expected(service, retries).calls - 1;
              0 <= last && Succeeds(service(last)) &&
              Expected(service, retries).result.value == Plates(service(last).text) &&
              forall j :: 0 <= j < last ==> !Succeeds(service(j))
  {
    var n := Budget(retries);
    match FirstSuccess(service, n)
    case Some(k) =>
      assert Expected(service, retries) == Run(Some(Plates(service(k).text)), k + 1, k);
    case None =>
  }

  /** When every attempt fails: None, exactly `retries` calls and `retries - 1` pauses. */
  lemma Exhaustion(service: nat -> Outcome, retries: int)
    requires retries > 0
    requires forall j :: 0 <= j < retries ==> !Succeeds(service(j))
    ensures Expected(service, retries) == Run(None, retries, retries - 1)
  {
  }

  /** A returned plate list is non-empty and each plate is stripped, non-empty and one line. */
  lemma ResultWellFormed(service: nat -> Outcome, retries: int)
    ensures Expected(service, retries).result.Some? ==>
              Expected(service, retries).result.value != [] &&
              forall k :: 0 <= k < |Expected(service, retries).result.value| ==>
                IsPlate(Expected(service, retries).result.value[k])
  {
    var n := Budget(retries);
    match FirstSuccess(service, n)
    case Some(k) => AcceptedHasPlates(service(k).text);
    case None =>
  }

  /** Two services that agree below `n` have the same first success below `n`. */
  lemma {:induction false} FirstSuccessAgrees(s1: nat -> Outcome, s2: nat -> Outcome, n: nat)
    requires forall j :: 0 <= j < n ==> Succeeds(s1(j)) == Succeeds(s2(j))
    ensures FirstSuccess(s1, n) == FirstSuccess(s2, n)
  {
    if n > 0 {
      FirstSuccessAgrees(s1, s2, n - 1);
    }
  }

  /**
   * Nothing after the attempts actually made can matter: the run depends only
   * on the outcomes of attempts `0 .. calls - 1`.
   */
  lemma NoLaterAttempts(s1: nat -> Outcome, s2: nat -> Outcome, retries: int)
    requires forall j :: 0 <= j < Expected(s1, retries).calls ==> s1(j) == s2(j)
    ensures Expected(s2, retries) == Expected(s1, retries)
  {
    var n := Budget(retries);
    match FirstSuccess(s1, n)
    case Some(k) =>
      SameFirstSuccess(s1, s2, k + 1, n);
      assert s1(k) == s2(k);
    case None =>
      SameFirstSuccess(s1, s2, n, n);
  }

  /** Services that agree below `m` share a first success below `n` that lies below `m`. */
  lemma SameFirstSuccess(s1: nat -> Outcome, s2: nat -> Outcome, m: nat, n: nat)
    requires m <= n
    requires m == n || (0 < m && FirstSuccess(s1, n) == Some(m - 1))
    requires forall j :: 0 <= j < m ==> s1(j) == s2(j)
    ensures FirstSuccess(s2, n) == FirstSuccess(s1, n)
  {
    FirstSuccessAgrees(s1, s2, m);
    if m < n {
      FirstSuccessPrefix(s1, m, n);
      FirstSuccessPrefix(s2, m, n);
    }
  }

  /** Once an attempt below `m` succeeds, looking further up to `n` changes nothing. */
  lemma {:induction false} FirstSuccessPrefix(service: nat -> Outcome, m: nat, n: nat)
    requires m <= n && FirstSuccess(service, m).Some?
    ensures FirstSuccess(service, n) == FirstSuccess(service, m)
  {
    if m < n {
      FirstSuccessPrefix(service, m, n - 1);
    }
  }

  /** A reply the client rejects counts exactly like an exception. */
  lemma RejectedReplyIsFailure(service: nat -> Outcome, retries: int, a: nat)
    requires service(a).Reply? && !Accepts(service(a).text)
    ensures Expected((j: nat) => if j == a then Throws else service(j), retries) == Expected(service, retries)
  {
    var thrown := (j: nat) => if j == a then Throws else service(j);
    var n := Budget(retries);
    FirstSuccessAgrees(service, thrown, n);
  }

  /** With the default budget a run makes at most 3 calls and waits at most 60 seconds. */
  lemma DefaultBudget(service: nat -> Outcome)
    ensures Expected(service, DefaultRetries).calls <= 3
    ensures Expected(service, DefaultRetries).sleeps * BackoffSeconds <= 60
  {
    CallsAndSleeps(service, DefaultRetries);
  }

  /** A returned plate list survives export: its payload normalizes to the same plates. */
  lemma ResultExportRoundTrip(service: nat -> Outcome, retries: int)
    requires Expected(service, retries).result.Some?
    ensures Plates(Join(Expected(service, retries).result.value)) ==
              Expected(service, retries).result.value
  {
    var n := Budget(retries);
    var k := FirstSuccess(service, n).value;
    ResultRoundTrip(service(k).text);
  }
}
