/** The session bookkeeping of the Streamlit app: the session state that
    the fallback image generation resets, that a submitted description
    advances, that `update_checklist` replaces with parsed markup outside
    fallback mode, and what the sidebar shows of it. */
module App {
  import opened Text
  import opened Options
  import opened Checklist
  import opened FallbackMode
  import opened ChecklistMarkup

  datatype Speaker = Child | Teacher

  /** One entry of `conversation_history`. */
  datatype Turn = Turn(speaker: Speaker, text: string)

  /** The attempt count after one submission: raised by one while it is
      below the limit, kept otherwise. */
  function NextCount(count: int, limit: int): (r: int)
    ensures count < limit ==> r == count + 1
    ensures count >= limit ==> r == count
  {
    if count < limit then count + 1 else count
  }

  /** The attempt count after `n` submissions from a fresh image. */
  function CountAfter(limit: int, n: nat): int {
    if n == 0 then 0 else NextCount(CountAfter(limit, n - 1), limit)
  }

  /** Starting from 0, `n` submissions leave the count at `min(n, limit)`. */
  lemma {:induction false} CountAfterIsMin(limit: nat, n: nat)
    ensures CountAfter(limit, n) == Min(n, limit)
  {
    if n > 0 {
      CountAfterIsMin(limit, n - 1);
    }
  }

  /** The count shown in the sidebar, never above the limit. */
  function DisplayCount(count: int, limit: int): (r: int)
    ensures r <= limit && r <= count
    ensures r == count || r == limit
  {
    Min(count, limit)
  }

  /** Whether the sidebar warns that the attempts are used up. */
  predicate ShowsExhaustedWarning(count: int, limit: int, items: seq<ItemValue>) {
    count >= limit && !AllIdentified(items)
  }

  /** `all([])` holds, so an empty checklist never draws the warning, and a
      checklist with a pending item draws it exactly at the limit. */
  lemma ExhaustedWarningIff(count: int, limit: int, items: seq<ItemValue>)
    ensures items == [] ==> !ShowsExhaustedWarning(count, limit, items)
    ensures ShowsExhaustedWarning(count, limit, items)
      <==> count >= limit && Unidentified(items) != []
  {
  }

  /** After `limit` submissions the warning shows exactly when an item is
      still pending, and the sidebar shows the limit. */
  lemma ExhaustedAfterLimit(limit: nat, n: nat, items: seq<ItemValue>)
    requires n >= limit
    ensures ShowsExhaustedWarning(CountAfter(limit, n), limit, items) <==> !AllIdentified(items)
    ensures DisplayCount(CountAfter(limit, n), limit) == limit
  {
    CountAfterIsMin(limit, n);
  }

  // ---------------------------------------------------------------------
  // Progress (app.py:284-303)

  /** What `update_progress` reports: a notice for an empty checklist,
      otherwise the identified count out of the total. */
  datatype ProgressReport = NoDetails | Progress(identified: nat, total: nat)

  function ProgressOf(items: seq<ItemValue>): (r: ProgressReport)
    ensures r.NoDetails? <==> items == []
    ensures r.Progress? ==> 0 < r.total == |items| && r.identified <= r.total
    ensures r.Progress? ==> (r.identified == r.total <==> AllIdentified(items))
  {
    if items == [] then NoDetails else Progress(CountIdentified(items), |items|)
  }

  /** `identified_items / total_items * 100`. */
  function Percentage(identified: nat, total: nat): (p: real)
    requires 0 < total && identified <= total
    ensures 0.0 <= p <= 100.0
    ensures p == 100.0 <==> identified == total
    ensures p == 0.0 <==> identified == 0
  {
    PercentageBounds(identified, total);
    identified as real / total as real * 100.0
  }

  lemma PercentageBounds(identified: nat, total: nat)
    requires 0 < total && identified <= total
    ensures 0.0 <= identified as real / total as real <= 1.0
    ensures identified as real / total as real == 1.0 <==> identified == total
    ensures identified as real / total as real == 0.0 <==> identified == 0
  {
    var i, t := identified as real, total as real;
    var q := i / t;
    assert q * t == i;
    if q < 0.0 {
      ScaleStrict(q, 0.0, t);
    }
    if q > 0.0 {
      ScaleStrict(0.0, q, t);
    }
    if q < 1.0 {
      ScaleStrict(q, 1.0, t);
    }
    if q > 1.0 {
      ScaleStrict(1.0, q, t);
    }
  }

  /** Multiplying by a positive number keeps a strict order. */
  lemma ScaleStrict(a: real, b: real, t: real)
    requires a < b && 0.0 < t
    ensures a * t < b * t
  {
    assert b * t - a * t == (b - a) * t;
  }

  /** Any one of four items identified reads as 1/4 and 25%. */
  lemma OneOfFourIsQuarter(items: seq<ItemValue>, j: int)
    requires |items| == 4 && 0 <= j < 4 && items[j].identified
    requires forall k :: 0 <= k < 4 && k != j ==> !items[k].identified
    ensures ProgressOf(items) == Progress(1, 4)
    ensures Percentage(1, 4) == 25.0
  {
    var t1 := items[1..];
    var t2 := t1[1..];
    var t3 := t2[1..];
    assert t3[1..] == [];
    assert t1[0] == items[1] && t2[0] == items[2] && t3[0] == items[3];
    assert CountIdentified(items) == (if items[0].identified then 1 else 0)
      + (if items[1].identified then 1 else 0) + (if items[2].identified then 1 else 0)
      + (if items[3].identified then 1 else 0);
  }

  // ---------------------------------------------------------------------
  // The placeholder checklist (app.py:270-277)

  /** The four items used when the markup yields none for an image. */
  const DefaultChecklist: seq<ItemValue> := [
    ItemValue("Object in image", false, 0), ItemValue("Color", false, 1),
    ItemValue("Shape", false, 2), ItemValue("Background", false, 3)]

  lemma DefaultChecklistIsFresh()
    ensures |DefaultChecklist| == 4 && IdsArePositions(DefaultChecklist)
    ensures Unidentified(DefaultChecklist) == ["Object in image", "Color", "Shape", "Background"]
  {
  }

  /** The checklist `update_checklist` keeps: the parsed items, or the four
      defaults when none were parsed and the session has an image. */
  function ChecklistAfterMarkup(html: Option<string>, image: Option<string>): (r: seq<ItemValue>)
    ensures IdsArePositions(r)
    ensures r == [] <==> ExtractedItems(html) == [] && (image.None? || image.value == [])
    ensures ExtractedItems(html) != [] ==> r == ExtractedItems(html)
    ensures ExtractedItems(html) == [] && image.Some? && image.value != [] ==> r == DefaultChecklist
  {
    var parsed := ExtractedItems(html);
    if parsed == [] && image.Some? && image.value != [] then DefaultChecklist else parsed
  }

  /** The session state the fallback mode works on: the checklist, the
      attempt counter and its limit, the current image and the transcript. */
  class Session {
    var checklist: seq<Item>
    var attemptCount: int
    var attemptLimit: int
    var image: Option<string>
    var transcript: seq<Turn>

    /** The count starts at 0 and never passes the limit, which is at
        least one. */
    predicate Valid()
      reads this
    {
      1 <= attemptLimit && 0 <= attemptCount <= attemptLimit
    }

    /** The state before any image: no checklist, three attempts allowed. */
    constructor ()
      ensures Valid()
      ensures checklist == [] && transcript == [] && image == None
      ensures attemptCount == 0 && attemptLimit == 3
    {
      checklist := [];
      attemptCount := 0;
      attemptLimit := 3;
      image := None;
      transcript := [];
    }

    /** The fallback branch of `generate_image`. `placeholder` is the data
        URL of the drawn placeholder, or None when drawing failed. On
        success the attempts restart under the configured limit, the
        transcript is cleared and a fresh checklist for the topic is drawn. */
    method GenerateImage(placeholder: Option<string>, topic: string, configuredLimit: int,
                         k: int, picks: seq<nat>)
      returns (ok: bool)
      requires Valid()
      requires 1 <= configuredLimit <= 10
      requires ValidDraws(topic, k, picks)
      modifies this
      ensures Valid()
      ensures ok <==> placeholder.Some?
      ensures !ok ==> (checklist == old(checklist) && attemptCount == old(attemptCount)
        && attemptLimit == old(attemptLimit) && image == old(image) && transcript == old(transcript))
      ensures ok ==> (attemptCount == 0 && attemptLimit == configuredLimit
        && image == placeholder && transcript == [])
      ensures ok ==> forall i :: 0 <= i < |checklist| ==> fresh(checklist[i])
      ensures ok ==> Snapshot(checklist) == PlaceholderChecklist(topic, k, picks)
    {
      if placeholder.None? {
        return false;
      }
      image := placeholder;
      attemptCount := 0;
      attemptLimit := configuredLimit;
      checklist := GeneratePlaceholderChecklist(topic, k, picks);
      transcript := [];
      return true;
    }

    /** The fallback branch of `process_chat_message`. A blank message is
        refused and changes nothing. Otherwise the stripped message is
        matched against the checklist, the child's message and the reply
        are appended to the transcript, and the attempt count advances
        without passing the limit. The reply sees the count from before
        the advance. */
    method SubmitDescription(message: string, randBelow: nat -> nat) returns (accepted: bool, ghost reply: string)
      requires Valid()
      requires forall n: nat :: 0 < n ==> randBelow(n) < n
      modifies this, checklist
      ensures Valid()
      ensures accepted <==> !IsBlank(message)
      ensures checklist == old(checklist) && attemptLimit == old(attemptLimit) && image == old(image)
      ensures !accepted ==> attemptCount == old(attemptCount) && transcript == old(transcript)
      ensures !accepted ==> forall k :: 0 <= k < |checklist| ==>
        checklist[k].identified == old(checklist[k].identified)
      ensures accepted ==> forall k :: 0 <= k < |checklist| ==>
        checklist[k].identified == (old(checklist[k].identified) || Mentions(checklist[k].detail, Strip(message)))
      ensures accepted ==> attemptCount == NextCount(old(attemptCount), attemptLimit)
      ensures accepted ==> transcript == old(transcript) + [Turn(Child, Strip(message)), Turn(Teacher, reply)]
      ensures accepted ==>
        var pending := Unidentified(Snapshot(checklist));
        reply == Encouragement(pending, randBelow(|pending|))
          + AttemptNotice(Some(AttemptInfo(old(attemptCount), attemptLimit)), pending)
    {
      if IsBlank(message) {
        return false, [];
      }
      reply := Submit(Strip(message), randBelow);
      return true, reply;
    }

    /** A submission of a non-blank message, already stripped. */
    method Submit(userMessage: string, randBelow: nat -> nat) returns (response: string)
      requires Valid()
      requires forall n: nat :: 0 < n ==> randBelow(n) < n
      modifies this, checklist
      ensures Valid()
      ensures checklist == old(checklist) && attemptLimit == old(attemptLimit) && image == old(image)
      ensures forall k :: 0 <= k < |checklist| ==>
        checklist[k].identified == (old(checklist[k].identified) || Mentions(checklist[k].detail, userMessage))
      ensures attemptCount == NextCount(old(attemptCount), attemptLimit)
      ensures transcript == old(transcript) + [Turn(Child, userMessage), Turn(Teacher, response)]
      ensures var pending := Unidentified(Snapshot(checklist));
        response == Encouragement(pending, randBelow(|pending|))
          + AttemptNotice(Some(AttemptInfo(old(attemptCount), attemptLimit)), pending)
    {
      // The reply is composed from the count before the advance; the
      // advance touches no field the reply reads, so it is made first.
      var session := AttemptInfo(attemptCount, attemptLimit);
      if attemptCount < attemptLimit {
        attemptCount := attemptCount + 1;
      }
      response := Respond(userMessage, session, randBelow);
    }

    /** Matching a stripped message and recording the exchange: the reply
        is the hint or completion message for the items still pending,
        followed by the last-attempt notice when it is due. */
    method Respond(userMessage: string, session: AttemptInfo, randBelow: nat -> nat)
      returns (response: string)
      requires forall n: nat :: 0 < n ==> randBelow(n) < n
      modifies this, checklist
      ensures checklist == old(checklist) && attemptCount == old(attemptCount)
      ensures attemptLimit == old(attemptLimit) && image == old(image)
      ensures forall k :: 0 <= k < |checklist| ==>
        checklist[k].identified == (old(checklist[k].identified) || Mentions(checklist[k].detail, userMessage))
      ensures var pending := Unidentified(Snapshot(checklist));
        response == Encouragement(pending, randBelow(|pending|))
          + AttemptNotice(Some(session), pending)
      ensures transcript == old(transcript) + [Turn(Child, userMessage), Turn(Teacher, response)]
    {
      var updated;
      response, updated := ProcessChatMessage(userMessage, checklist, Some(session), randBelow);
      label Matched:
      checklist := updated;
      Record(userMessage, response);
      SnapshotUnchanged@Matched(updated);
    }

    /** The two `conversation_history.append` calls of a submission. */
    method Record(userMessage: string, response: string)
      modifies this
      ensures transcript == old(transcript) + [Turn(Child, userMessage), Turn(Teacher, response)]
      ensures checklist == old(checklist) && unchanged(checklist) && attemptCount == old(attemptCount)
      ensures attemptLimit == old(attemptLimit) && image == old(image)
    {
      transcript := transcript + [Turn(Child, userMessage)];
      transcript := transcript + [Turn(Teacher, response)];
    }

    /** The tail of `update_checklist`: the items parsed from the checklist
        markup, or the four defaults when none were parsed and the session
        has an image. */
    method ApplyChecklistMarkup(html: Option<string>)
      requires Valid()
      modifies this
      ensures Valid()
      ensures forall i :: 0 <= i < |checklist| ==> fresh(checklist[i])
      ensures Snapshot(checklist) == ChecklistAfterMarkup(html, image)
      ensures attemptCount == old(attemptCount) && attemptLimit == old(attemptLimit)
        && image == old(image) && transcript == old(transcript)
    {
      var parsed := ExtractChecklistFromHtml(html);
      if parsed == [] && image.Some? && image.value != [] {
        parsed := Materialize(DefaultChecklist);
      }
      label Built:
      checklist := parsed;
      SnapshotUnchanged@Built(parsed);
    }

    /** `update_checklist`: in fallback mode it returns at once, since the
        generator already built the checklist; otherwise the fetched markup
        replaces the checklist. */
    method UpdateChecklist(fallbackMode: bool, html: Option<string>)
      requires Valid()
      modifies this
      ensures Valid()
      ensures fallbackMode ==> checklist == old(checklist) && Snapshot(checklist) == old(Snapshot(checklist))
      ensures !fallbackMode ==> Snapshot(checklist) == ChecklistAfterMarkup(html, image)
      ensures attemptCount == old(attemptCount) && attemptLimit == old(attemptLimit)
        && image == old(image) && transcript == old(transcript)
    {
      if fallbackMode {
        return;
      }
      ApplyChecklistMarkup(html);
    }
  }
}
