/**
 * `SubtitleBot.translate_text`: up to three calls to the translation
 * service, a one-second sleep after each failed call that is not the last,
 * and the untranslated text when every call fails. The service's behaviour
 * is an input: `reply(k)` is the outcome of the call made on attempt `k`
 * (0-based), `None` when that call raised.
 */
module Translate {
  import opened Wrappers

  /** `range(3)` in the retry loop. */
  const MaxAttempts: nat := 3

  /** The first attempt below `n` whose call succeeded, if any. */
  function FirstSuccess(reply: nat -> Option<string>, n: nat): (r: Option<nat>)
    ensures r.Some? ==> r.value < n && reply(r.value).Some?
    ensures r.Some? ==> forall j :: 0 <= j < r.value ==> reply(j).None?
    ensures r.None? ==> forall j :: 0 <= j < n ==> reply(j).None?
  {
    if n == 0 then None
    else match FirstSuccess(reply, n - 1)
      case Some(k) => Some(k)
      case None => if reply(n - 1).Some? then Some(n - 1) else None
  }

  /** What `translate_text` returns for `text` when the service answers `reply`. */
  function Translation(text: string, reply: nat -> Option<string>): string {
    match FirstSuccess(reply, MaxAttempts)
    case Some(k) => reply(k).value
    case None => text
  }

  /** How many times `translate_text` calls the service. */
  function CallCount(reply: nat -> Option<string>): (r: nat)
    ensures 1 <= r <= MaxAttempts
  {
    match FirstSuccess(reply, MaxAttempts)
    case Some(k) => k + 1
    case None => MaxAttempts
  }

  /**
   * The retry loop. `calls` counts the calls made to the service and
   * `sleeps` the one-second pauses between them.
   */
  method TranslateText(text: string, reply: nat -> Option<string>)
    returns (result: string, calls: nat, sleeps: nat)
    ensures 1 <= calls <= MaxAttempts
    ensures sleeps == calls - 1
    ensures forall k :: 0 <= k < calls - 1 ==> reply(k).None?
    ensures reply(calls - 1).Some? ==> result == reply(calls - 1).value
    ensures reply(calls - 1).None? ==> calls == MaxAttempts && result == text
    ensures result == Translation(text, reply) && calls == CallCount(reply)
  {
    calls, sleeps := 0, 0;
    for attempt := 0 to MaxAttempts
      invariant attempt < MaxAttempts
      invariant calls == attempt && sleeps == attempt
      invariant forall k :: 0 <= k < attempt ==> reply(k).None?
    {
      var outcome := reply(attempt);
      calls := calls + 1;
      if outcome.Some? {
        result := outcome.value;
        ghost var first := FirstSuccess(reply, MaxAttempts);
        assert first == Some(attempt) by {
          FirstSuccessUnique(reply, MaxAttempts, attempt);
        }
        return;
      }
      if attempt < MaxAttempts - 1 {
        sleeps := sleeps + 1;
      } else {
        result := text;
        assert FirstSuccess(reply, MaxAttempts).None?;
        return;
      }
    }
    assert false;
  }

  /** An attempt that succeeds after only failures is the first success. */
  lemma {:induction false} FirstSuccessUnique(reply: nat -> Option<string>, n: nat, k: nat)
    requires k < n && reply(k).Some?
    requires forall j :: 0 <= j < k ==> reply(j).None?
    ensures FirstSuccess(reply, n) == Some(k)
  {
    if n - 1 > k {
      FirstSuccessUnique(reply, n - 1, k);
    }
  }

  /**
   * Both outcomes of the retry policy, for every service behaviour: the
   * answer of the first successful call among the three, after as many
   * calls; or, when all three fail, the input text after three calls.
   */
  lemma TranslationCases(text: string, reply: nat -> Option<string>, k: nat)
    ensures k < MaxAttempts && reply(k).Some? && (forall j :: 0 <= j < k ==> reply(j).None?)
        ==> Translation(text, reply) == reply(k).value && CallCount(reply) == k + 1
    ensures (forall j :: 0 <= j < MaxAttempts ==> reply(j).None?)
        ==> Translation(text, reply) == text && CallCount(reply) == MaxAttempts
  {
    if k < MaxAttempts && reply(k).Some? && (forall j :: 0 <= j < k ==> reply(j).None?) {
      FirstSuccessUnique(reply, MaxAttempts, k);
    }
    if forall j :: 0 <= j < MaxAttempts ==> reply(j).None? {
      assert reply(0).None? && reply(1).None? && reply(2).None?;
    }
  }

  /**
   * Outcomes of calls that are never made do not matter: two service
   * behaviours that agree on the calls actually made give the same result.
   */
  lemma {:induction false} UnusedRepliesIrrelevant(text: string, r1: nat -> Option<string>, r2: nat -> Option<string>)
    requires forall k :: 0 <= k < CallCount(r1) ==> r1(k) == r2(k)
    ensures Translation(text, r1) == Translation(text, r2) && CallCount(r1) == CallCount(r2)
  {
    match FirstSuccess(r1, MaxAttempts)
    case Some(k) =>
      assert r2(k).Some? && forall j :: 0 <= j < k ==> r2(j).None?;
      FirstSuccessUnique(r2, MaxAttempts, k);
    case None =>
      assert forall j :: 0 <= j < MaxAttempts ==> r2(j).None?;
      FirstSuccessNone(r2, MaxAttempts);
  }

  lemma {:induction false} FirstSuccessNone(reply: nat -> Option<string>, n: nat)
    requires forall j :: 0 <= j < n ==> reply(j).None?
    ensures FirstSuccess(reply, n) == None
  {
    if n > 0 {
      FirstSuccessNone(reply, n - 1);
    }
  }
}
