/** The local simulation that stands in for the remote exercise service
    (fallback_mode.py): it invents a checklist for a topic, matches a child's
    description against the checklist, composes the teacher's reply and
    renders the checklist as HTML. Random draws are parameters. */
module FallbackMode {
  import opened Text
  import opened Options
  import opened Checklist

  // =====================================================================
  // Placeholder checklist (fallback_mode.py:87-139)

  const GenericDetails: seq<string> := [
    "Background color", "Main subject", "Foreground elements", "Lighting effects",
    "Shadows and highlights", "Texture patterns", "Color scheme"]

  const AnimalWords: seq<string> := ["animal", "animals", "pet", "pets", "wildlife"]
  const AnimalDetails: seq<string> :=
    ["Animal type", "Animal posture", "Animal coloring", "Habitat elements", "Animal features"]

  const PeopleWords: seq<string> := ["person", "people", "child", "children", "family"]
  const PeopleDetails: seq<string> :=
    ["Person's expression", "Clothing items", "Posture or pose", "Hair style", "Action being performed"]

  const NatureWords: seq<string> := ["nature", "landscape", "tree", "forest", "mountain", "ocean"]
  const NatureDetails: seq<string> :=
    ["Type of landscape", "Plant life", "Weather conditions", "Time of day", "Natural features"]

  const ObjectWords: seq<string> := ["object", "toy", "item", "tool"]
  const ObjectDetails: seq<string> :=
    ["Object shape", "Object purpose", "Object material", "Object size", "Object color"]

  /** `any(word in topic_words for word in keywords)`: some keyword is a
      whole word of the topic. */
  predicate AnyKeyword(topicWords: seq<string>, keywords: seq<string>) {
    exists k :: 0 <= k < |keywords| && keywords[k] in topicWords
  }

  /** The topic-specific details: the first bucket, in the order animals,
      people, nature, objects, that has a keyword among the words of the
      lower-cased topic. An empty topic and "Unknown" get none. */
  function TopicDetails(topic: string): seq<string> {
    if topic == [] || topic == "Unknown" then [] else BucketDetails(Split(Lower(topic)))
  }

  /** The bucket chosen for the words of a topic. */
  function BucketDetails(words: seq<string>): seq<string> {
    if AnyKeyword(words, AnimalWords) then AnimalDetails
    else if AnyKeyword(words, PeopleWords) then PeopleDetails
    else if AnyKeyword(words, NatureWords) then NatureDetails
    else if AnyKeyword(words, ObjectWords) then ObjectDetails
    else []
  }

  /** `all_details`: the topic bucket followed by the generic details. */
  function DetailPool(topic: string): seq<string> {
    TopicDetails(topic) + GenericDetails
  }

  function Min(a: int, b: int): int {
    if a <= b then a else b
  }

  /** The positions `random.sample(population, n)` picked: n distinct
      positions of the population, in the order drawn. */
  predicate IsSample(picks: seq<nat>, population: nat, n: int) {
    |picks| == n
    && (forall i :: 0 <= i < |picks| ==> picks[i] < population)
    && (forall i, j :: 0 <= i < j < |picks| ==> picks[i] != picks[j])
  }

  /** The draws the generator makes: `k = random.randint(5, 8)`, then a
      sample of `min(len(all_details), k)` positions of the pool. */
  predicate ValidDraws(topic: string, k: int, picks: seq<nat>) {
    5 <= k <= 8 && IsSample(picks, |DetailPool(topic)|, Min(|DetailPool(topic)|, k))
  }

  /** Unidentified items for these details, with ids 0..n-1. */
  function FreshItems(details: seq<string>): (r: seq<ItemValue>)
    ensures |r| == |details|
    ensures forall i :: 0 <= i < |r| ==> r[i] == ItemValue(details[i], false, i)
  {
    seq(|details|, i requires 0 <= i < |details| => ItemValue(details[i], false, i))
  }

  /** The details at the sampled positions of the pool, in the order drawn. */
  function SelectedDetails(topic: string, k: int, picks: seq<nat>): (r: seq<string>)
    requires ValidDraws(topic, k, picks)
    ensures |r| == |picks|
    ensures forall i :: 0 <= i < |r| ==> r[i] == DetailPool(topic)[picks[i]]
  {
    var pool := DetailPool(topic);
    seq(|picks|, i requires 0 <= i < |picks| => pool[picks[i]])
  }

  /** The checklist `generate_placeholder_checklist` returns for these draws. */
  function PlaceholderChecklist(topic: string, k: int, picks: seq<nat>): seq<ItemValue>
    requires ValidDraws(topic, k, picks)
  {
    FreshItems(SelectedDetails(topic, k, picks))
  }

  /** Builds the checklist: samples the pool, then makes the items. */
  method GeneratePlaceholderChecklist(topic: string, k: int, picks: seq<nat>)
    returns (checklist: seq<Item>)
    requires ValidDraws(topic, k, picks)
    ensures forall i :: 0 <= i < |checklist| ==> fresh(checklist[i])
    ensures Snapshot(checklist) == PlaceholderChecklist(topic, k, picks)
  {
    var allDetails := DetailPool(topic);
    var selected := seq(|picks|, i requires 0 <= i < |picks| => allDetails[picks[i]]);
    assert selected == SelectedDetails(topic, k, picks);
    checklist := Materialize(FreshItems(selected));
  }

  lemma PoolsAreDuplicateFree()
    ensures forall i, j :: 0 <= i < j < |GenericDetails| ==> GenericDetails[i] != GenericDetails[j]
    ensures forall i, j :: 0 <= i < j < |AnimalDetails| ==> AnimalDetails[i] != AnimalDetails[j]
    ensures forall i, j :: 0 <= i < j < |PeopleDetails| ==> PeopleDetails[i] != PeopleDetails[j]
    ensures forall i, j :: 0 <= i < j < |NatureDetails| ==> NatureDetails[i] != NatureDetails[j]
    ensures forall i, j :: 0 <= i < j < |ObjectDetails| ==> ObjectDetails[i] != ObjectDetails[j]
    ensures forall d :: d in GenericDetails ==>
      (d !in AnimalDetails && d !in PeopleDetails && d !in NatureDetails && d !in ObjectDetails)
  {
  }

  predicate DuplicateFree(s: seq<string>) {
    forall i, j :: 0 <= i < j < |s| ==> s[i] != s[j]
  }

  /** The topic details are one whole bucket, or none. */
  lemma TopicDetailsIsBucket(topic: string)
    ensures var t := TopicDetails(topic);
      t == [] || t == AnimalDetails || t == PeopleDetails || t == NatureDetails || t == ObjectDetails
  {
    if topic != [] && topic != "Unknown" {
      var words := Split(Lower(topic));
      assert TopicDetails(topic) == BucketDetails(words);
      if AnyKeyword(words, AnimalWords) {
      } else if AnyKeyword(words, PeopleWords) {
      } else if AnyKeyword(words, NatureWords) {
      } else if AnyKeyword(words, ObjectWords) {
      }
    }
  }

  lemma {:induction false} AppendDuplicateFree(a: seq<string>, b: seq<string>)
    requires DuplicateFree(a) && DuplicateFree(b)
    requires forall d :: d in b ==> d !in a
    ensures DuplicateFree(a + b)
  {
    var s := a + b;
    forall i, j | 0 <= i < j < |s| ensures s[i] != s[j] {
      if j < |a| {
        assert s[i] == a[i] && s[j] == a[j];
      } else if i < |a| {
        assert s[i] == a[i] && s[j] == b[j - |a|];
        assert b[j - |a|] in b && a[i] in a;
      } else {
        assert s[i] == b[i - |a|] && s[j] == b[j - |a|];
      }
    }
  }

  /** No detail occurs twice in a pool, whatever the topic. */
  lemma PoolDuplicateFree(topic: string)
    ensures DuplicateFree(DetailPool(topic))
  {
    PoolsAreDuplicateFree();
    TopicDetailsIsBucket(topic);
    AppendDuplicateFree(TopicDetails(topic), GenericDetails);
  }

  /** A generated checklist is fresh: every item is unidentified, ids are
      the positions 0..n-1, details come from the pool and none repeats,
      and there are `min(pool size, k)` of them. */
  lemma PlaceholderChecklistIsFresh(topic: string, k: int, picks: seq<nat>)
    requires ValidDraws(topic, k, picks)
    ensures var r := PlaceholderChecklist(topic, k, picks);
      |r| == Min(|DetailPool(topic)|, k)
      && IdsArePositions(r)
      && (forall i :: 0 <= i < |r| ==> !r[i].identified && r[i].detail in DetailPool(topic))
      && (forall i, j :: 0 <= i < j < |r| ==> r[i].detail != r[j].detail)
  {
    var r, pool := PlaceholderChecklist(topic, k, picks), DetailPool(topic);
    PoolDuplicateFree(topic);
    forall i, j | 0 <= i < j < |r| ensures r[i].detail != r[j].detail {
      assert picks[i] != picks[j];
    }
  }

  /** Without a matching topic the pool is the seven generic details, so
      the checklist has 5 to 7 items; with one it has 12, so 5 to 8. */
  lemma PlaceholderChecklistSize(topic: string, k: int, picks: seq<nat>)
    requires ValidDraws(topic, k, picks)
    ensures var n := |PlaceholderChecklist(topic, k, picks)|;
      (TopicDetails(topic) == [] ==> 5 <= n <= 7) && (TopicDetails(topic) != [] ==> 5 <= n <= 8)
  {
  }

  /** An empty topic or "Unknown" draws from the generic details only. */
  lemma UnknownTopicIsGeneric(topic: string, k: int, picks: seq<nat>)
    requires topic == [] || topic == "Unknown"
    requires ValidDraws(topic, k, picks)
    ensures forall i :: 0 <= i < |PlaceholderChecklist(topic, k, picks)| ==>
      PlaceholderChecklist(topic, k, picks)[i].detail in GenericDetails
  {
  }

  lemma LowerFamilyPets(topic: string)
    requires topic == "Family pets"
    ensures Lower(topic) == "family" + [' '] + "pets"
  {
  }

  /** The buckets are tried in order: "Family pets" names both the people
      and the animal bucket, and gets the animal details. */
  lemma AnimalsBeforePeople(topic: string)
    requires topic == "Family pets"
    ensures TopicDetails(topic) == AnimalDetails
  {
    var words := Split(Lower(topic));
    assert words == ["family"] + ["pets"] by {
      LowerFamilyPets(topic);
      SplitTwoWords("family", "pets");
    }
    assert AnimalWords[3] == words[1];
    assert TopicDetails(topic) == BucketDetails(words);
  }

  // =====================================================================
  // Matching a description (fallback_mode.py:155-171)

  /** The matcher's test for one detail: some whitespace-separated word of
      the lower-cased detail, longer than three characters, occurs as a
      substring of the lower-cased message. */
  predicate Mentions(detail: string, message: string) {
    var words := Split(Lower(detail));
    exists k :: 0 <= k < |words| && |words[k]| > 3 && Contains(Lower(message), words[k])
  }

  function MatchItem(message: string, item: ItemValue): ItemValue {
    if item.identified then item else item.(identified := Mentions(item.detail, message))
  }

  /** The checklist after matching `message`, item by item. */
  function MatchAll(message: string, items: seq<ItemValue>): (r: seq<ItemValue>)
    ensures |r| == |items|
    ensures forall k :: 0 <= k < |items| ==> r[k] == MatchItem(message, items[k])
  {
    seq(|items|, k requires 0 <= k < |items| => MatchItem(message, items[k]))
  }

  /** The count `newly_identified`: positions flagged in `after` but not in
      `before`. */
  function NewlyIdentified(after: seq<ItemValue>, before: seq<ItemValue>): (n: nat)
    requires |after| == |before|
    ensures n == 0 <==> forall k :: 0 <= k < |after| ==> (after[k].identified ==> before[k].identified)
  {
    if after == [] then 0
    else
      var rest := NewlyIdentified(after[1..], before[1..]);
      assert forall k :: 1 <= k < |after| ==> after[k] == after[1..][k - 1] && before[k] == before[1..][k - 1];
      (if after[0].identified && !before[0].identified then 1 else 0) + rest
  }

  // =====================================================================
  // Composing the reply (fallback_mode.py:173-197)

  /** What the matcher reads of the session dictionary. */
  datatype AttemptInfo = AttemptInfo(attemptCount: int, attemptLimit: int)

  const PraiseOpening := "Great job!"
  // The reply texts, cut at word boundaries so that the proofs about the
  // reply do not unfold one long literal character by character.
  const CompletionMessage := "Wonderful!" + " You've identified" + " all the details" + " in this image."
  const LastAttemptNotice := "\n\nThis is your" + " last attempt." + " After this," + " we'll move to" + " a new image."

  function PraiseMessage(newly: nat): string
    requires newly > 0
  {
    PraiseOpening + " You identified " + DecimalString(newly) + " new detail"
    + (if newly > 1 then "s" else "") + "."
    + (if newly > 1 then " Your observation skills are excellent!" else "")
  }

  function HintMessage(hint: string): string {
    "Good try!" + " Can you tell me" + " more about the " + Lower(hint) + "?"
  }

  /** The last-attempt notice is due: a session is given, its limit is
      non-zero, the next attempt reaches the limit and some detail is still
      unidentified. */
  predicate WarnsLastAttempt(session: Option<AttemptInfo>, unidentified: seq<string>) {
    session.Some? && session.value.attemptLimit != 0
    && session.value.attemptCount + 1 >= session.value.attemptLimit
    && unidentified != []
  }

  /** The reply when nothing was newly identified: a hint at the pending
      detail `random.choice` drew, or the completion message. */
  function Encouragement(unidentified: seq<string>, pick: nat): string
    requires unidentified != [] ==> pick < |unidentified|
  {
    if unidentified != [] then HintMessage(unidentified[pick]) else CompletionMessage
  }

  /** The sentence added to the reply when the last attempt is due. */
  function AttemptNotice(session: Option<AttemptInfo>, unidentified: seq<string>): string {
    if WarnsLastAttempt(session, unidentified) then LastAttemptNotice else ""
  }

  /** The reply for `newly` fresh identifications, the still unidentified
      details and the position `random.choice` drew among them. */
  function ComposeReply(newly: nat, unidentified: seq<string>, pick: nat, session: Option<AttemptInfo>): string
    requires unidentified != [] ==> pick < |unidentified|
  {
    var base := if newly > 0 then PraiseMessage(newly) else Encouragement(unidentified, pick);
    base + AttemptNotice(session, unidentified)
  }

  predicate EndsWith(s: string, suffix: string) {
    |suffix| <= |s| && s[|s| - |suffix|..] == suffix
  }

  /** Without fresh identifications the reply never praises: it hints at a
      pending detail, or announces completion when none is pending. */
  lemma ReplyWithoutNewDetails(unidentified: seq<string>, pick: nat, session: Option<AttemptInfo>)
    requires unidentified != [] ==> pick < |unidentified|
    ensures var r := ComposeReply(0, unidentified, pick, session);
      r == Encouragement(unidentified, pick) + AttemptNotice(session, unidentified)
      && !(PraiseOpening <= r)
      && (unidentified != [] ==> HintMessage(unidentified[pick]) <= r)
      && (unidentified == [] ==> r == CompletionMessage)
  {
    var r := ComposeReply(0, unidentified, pick, session);
    if unidentified != [] {
      var h := HintMessage(unidentified[pick]);
      assert r[..|h|] == h;
      assert r[1] == h[1] == 'o';
    } else {
      assert r == CompletionMessage;
      assert r[0] == 'W';
    }
  }

  /** The last-attempt notice ends the reply exactly when it is due. */
  lemma LastAttemptNoticeIffDue(newly: nat, unidentified: seq<string>, pick: nat, session: Option<AttemptInfo>)
    requires unidentified != [] ==> pick < |unidentified|
    ensures EndsWith(ComposeReply(newly, unidentified, pick, session), LastAttemptNotice)
      <==> WarnsLastAttempt(session, unidentified)
  {
    var base := if newly > 0 then PraiseMessage(newly) else Encouragement(unidentified, pick);
    var r := ComposeReply(newly, unidentified, pick, session);
    var n := |LastAttemptNotice|;
    if WarnsLastAttempt(session, unidentified) {
      assert r == base + LastAttemptNotice;
      assert r[|r| - n..] == LastAttemptNotice;
    } else {
      assert r == base;
      if newly > 1 {
        assert r[|r| - 1] == '!';
      } else if newly == 1 {
        assert r[|r| - 1] == '.' && r[|r| - 2] == 'l';
      } else if unidentified != [] {
        assert r[|r| - 1] == '?';
      } else {
        assert |r| < n;
      }
    }
  }

  /** The body of the matcher's loop for one pending item: scan the words
      of its lower-cased detail and flag it at the first word longer than
      three characters that occurs in the lower-cased message. */
  method MarkIfMentioned(item: Item, message: string)
    modifies item
    ensures item.identified == (old(item.identified) || Mentions(item.detail, message))
  {
    var detailWords := Split(Lower(item.detail));
    var messageLower := Lower(message);
    var j := 0;
    while j < |detailWords|
      invariant 0 <= j <= |detailWords|
      invariant item.identified == old(item.identified)
      invariant forall q :: 0 <= q < j ==> !(|detailWords[q]| > 3 && Contains(messageLower, detailWords[q]))
    {
      if |detailWords[j]| > 3 && Contains(messageLower, detailWords[j]) {
        item.identified := true;
        return;
      }
      j := j + 1;
    }
  }

  /** The matcher's loop over the items: every pending item the message
      mentions is flagged, and nothing else changes. An object listed twice
      is visited twice; the second visit finds it as the first one left it. */
  method MarkMentioned(items: seq<Item>, message: string)
    modifies items
    ensures forall k :: 0 <= k < |items| ==>
      items[k].identified == (old(items[k].identified) || Mentions(items[k].detail, message))
  {
    for i := 0 to |items|
      invariant forall k :: 0 <= k < |items| && items[k] in items[..i] ==>
        items[k].identified == (old(items[k].identified) || Mentions(items[k].detail, message))
      invariant forall k :: 0 <= k < |items| && items[k] !in items[..i] ==>
        items[k].identified == old(items[k].identified)
    {
      var item := items[i];
      assert items[..i + 1] == items[..i] + [item];
      if item.identified {
        continue;
      }
      MarkIfMentioned(item, message);
    }
    assert items[..|items|] == items;
  }

  /** `process_chat_message`. The list it returns is `checklist.copy()`, a
      new list holding the very same item objects, so its writes to
      `identified` reach the caller's items and the count of newly
      identified items, taken from that list against the caller's, is
      always 0: the praise branch is never taken. */
  method ProcessChatMessage(message: string, checklist: seq<Item>, session: Option<AttemptInfo>,
                            randBelow: nat -> nat)
    returns (response: string, updated: seq<Item>)
    requires forall n: nat :: 0 < n ==> randBelow(n) < n
    modifies checklist
    ensures updated == checklist
    ensures forall k :: 0 <= k < |checklist| ==>
      checklist[k].identified == (old(checklist[k].identified) || Mentions(checklist[k].detail, message))
    ensures Snapshot(updated) == MatchAll(message, old(Snapshot(checklist)))
    ensures var pending := Unidentified(Snapshot(updated));
      response == Encouragement(pending, randBelow(|pending|)) + AttemptNotice(session, pending)
    ensures !(PraiseOpening <= response)
  {
    ghost var before := Snapshot(checklist);
    updated := checklist;
    MarkMentioned(updated, message);
    assert Snapshot(updated) == MatchAll(message, before);
    var newly := NewlyIdentified(Snapshot(updated), Snapshot(checklist));
    var pending := Unidentified(Snapshot(updated));
    response := ComposeReply(newly, pending, randBelow(|pending|), session);
    ReplyWithoutNewDetails(pending, randBelow(|pending|), session);
  }

  // =====================================================================
  // Properties of matching

  /** Matching never clears a flag and never touches a detail or an id. */
  lemma MatchingOnlyRaisesFlags(message: string, items: seq<ItemValue>)
    ensures var r := MatchAll(message, items);
      forall k :: 0 <= k < |items| ==>
        r[k].detail == items[k].detail && r[k].id == items[k].id
        && (items[k].identified ==> r[k].identified)
  {
  }

  /** A pending item becomes identified exactly when the message mentions it. */
  lemma PendingItemFlagIff(message: string, items: seq<ItemValue>, k: int)
    requires 0 <= k < |items| && !items[k].identified
    ensures MatchAll(message, items)[k].identified <==>
      exists w :: w in Split(Lower(items[k].detail)) && |w| > 3 && Contains(Lower(message), w)
  {
    var words := Split(Lower(items[k].detail));
    if w :| w in words && |w| > 3 && Contains(Lower(message), w) {
      var q :| 0 <= q < |words| && words[q] == w;
    }
  }

  /** Matching the same message again identifies nothing more. */
  lemma MatchingIsIdempotent(message: string, items: seq<ItemValue>)
    ensures MatchAll(message, MatchAll(message, items)) == MatchAll(message, items)
    ensures NewlyIdentified(MatchAll(message, MatchAll(message, items)), MatchAll(message, items)) == 0
  {
  }

  /** Against a list taken before matching, the count would be the number
      of pending items the message mentions, so it is positive exactly when
      something was identified; the aliased count in `ProcessChatMessage`
      misses every one of them. */
  lemma CountAgainstEarlierList(message: string, items: seq<ItemValue>)
    ensures NewlyIdentified(MatchAll(message, items), items) > 0 <==>
      exists k :: 0 <= k < |items| && !items[k].identified && Mentions(items[k].detail, message)
  {
    var r := MatchAll(message, items);
    if k :| 0 <= k < |items| && !items[k].identified && Mentions(items[k].detail, message) {
      assert r[k].identified && !items[k].identified;
    }
  }

  lemma LowerShadows(detail: string)
    requires detail == "Shadows and highlights"
    ensures Lower(detail) == "shadows" + " and highlights"
  {
  }

  lemma ShadowsAtTwelve(message: string)
    requires message == "look at the shadows and highlights"
    ensures OccursAt(message, "shadows", 12)
  {
    assert message == "look at the " + "shadows" + " and highlights";
    OccursBetween("look at the ", "shadows", " and highlights");
  }

  lemma LowerShadowsMessage(message: string)
    requires message == "look at the shadows and highlights"
    ensures Lower(message) == message
  {
  }

  lemma ShadowsOccurs(message: string)
    requires message == "look at the shadows and highlights"
    ensures Contains(Lower(message), "shadows")
  {
    ShadowsAtTwelve(message);
    LowerShadowsMessage(message);
  }

  lemma ShadowsIsWord(w: string)
    requires w == "shadows"
    ensures IsWord(w) && |w| > 3
  {
    assert forall i :: 0 <= i < |w| ==> 'a' <= w[i] <= 'z';
  }

  /** A detail whose first word is longer than three characters and occurs
      in the lower-cased message is mentioned by it. */
  lemma FirstWordMentioned(detail: string, message: string, w: string, rest: string)
    requires Lower(detail) == w + rest
    requires IsWord(w) && (rest == [] || IsSpace(rest[0]))
    requires |w| > 3 && Contains(Lower(message), w)
    ensures Mentions(detail, message)
  {
    var words := Split(Lower(detail));
    SplitWord(w, rest);
    assert words == [w] + Split(rest);
    assert words[0] == w;
    assert 0 < |words| && |words[0]| > 3 && Contains(Lower(message), words[0]);
  }

  /** "look at the shadows and highlights" identifies "Shadows and highlights". */
  lemma ShadowsExample(detail: string, message: string)
    requires detail == "Shadows and highlights"
    requires message == "look at the shadows and highlights"
    ensures Mentions(detail, message)
  {
    LowerShadows(detail);
    ShadowsOccurs(message);
    ShadowsIsWord("shadows");
    FirstWordMentioned(detail, message, "shadows", " and highlights");
  }

  lemma LowerRedDog(message: string)
    requires message == "I see a big red dog"
    ensures Lower(message) == "i see a big red dog"
  {
  }

  lemma LowerAnimalDetail(detail: string, second: string)
    requires detail == "Animal " + second
    requires forall i :: 0 <= i < |second| ==> 'a' <= second[i] <= 'z'
    ensures Lower(detail) == "animal" + [' '] + second
  {
  }

  /** No word of "Animal <second>" longer than three characters occurs in
      "I see a big red dog" when `second` uses a letter the message lacks. */
  lemma AnimalDetailNotMentioned(detail: string, second: string, message: string, k: int)
    requires detail == "Animal " + second
    requires IsWord(second) && forall i :: 0 <= i < |second| ==> 'a' <= second[i] <= 'z'
    requires message == "I see a big red dog"
    requires 0 <= k < |second| && second[k] !in "i see a big red dog"
    ensures !Mentions(detail, message)
  {
    var m := Lower(message);
    LowerRedDog(message);
    var words := Split(Lower(detail));
    assert words == ["animal"] + [second] by {
      LowerAnimalDetail(detail, second);
      SplitTwoWords("animal", second);
    }
    MissingCharNotContained(m, "animal", 1);
    MissingCharNotContained(m, second, k);
  }

  /** "I see a big red dog" identifies neither "Animal type" nor "Animal
      coloring": no word of either detail occurs in it. */
  lemma RedDogExample(message: string)
    requires message == "I see a big red dog"
    ensures !Mentions("Animal type", message)
    ensures !Mentions("Animal coloring", message)
  {
    AnimalDetailNotMentioned("Animal type", "type", message, 0);
    AnimalDetailNotMentioned("Animal coloring", "coloring", message, 0);
  }

  // =====================================================================
  // Rendering the checklist as HTML (fallback_mode.py:202-224)

  // The container tag and the style block, written as the source's
  // literals cut at attribute and declaration boundaries. Short pieces keep
  // the proofs about the rendered markup within the solver's budget: a
  // long literal is unfolded character by character wherever it appears.
  const ContainerTag := "<div id="
  const ContainerId := "\"checklist-" + "container\"" + " style=\""
  const ContainerColors := "background-color: " + "#000000; " + "color: #ffffff; "
  const ContainerBox := "padding: 15px; " + "border-radius: 8px;" + "\">"
  const ContainerAttributes := ContainerId + ContainerColors + ContainerBox
  const ContainerOpen := ContainerTag + ContainerAttributes

  const StyleOpen := "<style>"
  const ItemLayout := ".checklist-item " + "{display: flex; " + "align-items: center; "
  const ItemSpacing := "margin-bottom: 10px; " + "padding: 8px; " + "border-radius: 5px; "
  const ItemTransition := "transition: " + "background-color " + "0.3s;} "
  const ItemRule := ItemLayout + ItemSpacing + ItemTransition
  const ItemStyle := StyleOpen + ItemRule

  const IdentifiedColors := ".identified " + "{background-color: " + "#1e4620; "
  const IdentifiedText := "text-decoration: " + "line-through; " + "color: #7fff7f;} "
  const IdentifiedStyle := IdentifiedColors + IdentifiedText
  const NotIdentifiedColors := ".not-identified " + "{background-color: "
  const NotIdentifiedText := "#222222; " + "color: #ffffff;} "
  const NotIdentifiedStyle := NotIdentifiedColors + NotIdentifiedText
  const CheckmarkRule := ".checkmark " + "{margin-right: 10px; " + "font-size: 1.2em;}"
  const StyleClose := "</style>"
  const CheckmarkStyle := CheckmarkRule + StyleClose

  const ChecklistHeader := ContainerOpen + ItemStyle + IdentifiedStyle + NotIdentifiedStyle + CheckmarkStyle

  const ItemOpen := "<div class=\"checklist-item "
  const TagEnd := "\">"
  const CheckmarkOpen := "<span class=\"checkmark\">"
  const SpanOpen := "<span>"
  const SpanClose := "</span>"
  const DivClose := "</div>"

  function CssClass(identified: bool): string {
    if identified then "identified" else "not-identified"
  }

  function Checkmark(identified: bool): string {
    if identified then "\U{2705}" else "\U{274C}"
  }

  /** The block of one item: its opening tag with the class, the checkmark
      span, the detail span and the closing tag. */
  function ItemHtml(item: ItemValue): string {
    OpeningTag(item.identified) + CheckmarkSpan(item.identified) + DetailSpan(item.detail) + DivClose
  }

  function OpeningTag(identified: bool): string {
    ItemOpen + CssClass(identified) + TagEnd
  }

  function CheckmarkSpan(identified: bool): string {
    CheckmarkOpen + Checkmark(identified) + SpanClose
  }

  function DetailSpan(detail: string): string {
    SpanOpen + detail + SpanClose
  }

  function ItemsHtml(items: seq<ItemValue>): string {
    if items == [] then [] else ItemHtml(items[0]) + ItemsHtml(items[1..])
  }

  /** The markup `create_html_checklist` produces for these items. */
  function ChecklistHtml(items: seq<ItemValue>): string {
    ChecklistHeader + ItemsHtml(items) + DivClose
  }

  lemma {:induction false} ItemsHtmlAppend(items: seq<ItemValue>, x: ItemValue)
    ensures ItemsHtml(items + [x]) == ItemsHtml(items) + ItemHtml(x)
  {
    if items == [] {
      assert items + [x] == [x];
      assert ItemsHtml([x]) == ItemHtml(x) + [];
    } else {
      var head, tail := ItemHtml(items[0]), items[1..];
      TailOfAppend(items, x);
      assert ItemsHtml(items + [x]) == head + ItemsHtml(tail + [x]);
      ItemsHtmlAppend(tail, x);
      AppendAssociates(head, ItemsHtml(tail), ItemHtml(x));
    }
  }

  lemma ItemsHtmlPrefix(items: seq<ItemValue>, i: nat)
    requires i < |items|
    ensures ItemsHtml(items[..i + 1]) == ItemsHtml(items[..i]) + ItemHtml(items[i])
  {
    PrefixOfNext(items, i);
    ItemsHtmlAppend(items[..i], items[i]);
  }

  /** One pass of the loop of `create_html_checklist`: the four appends
      that add an item's block to the markup. */
  method AppendItemBlock(start: string, item: Item) returns (html: string)
    ensures html == start + ItemHtml(ItemValue(item.detail, item.identified, item.id))
  {
    var detail := item.detail;
    var identified := item.identified;
    var cssClass := if identified then "identified" else "not-identified";
    var checkmark := if identified then "\U{2705}" else "\U{274C}";
    html := start + (ItemOpen + cssClass + TagEnd);
    html := html + (CheckmarkOpen + checkmark + SpanClose);
    html := html + (SpanOpen + detail + SpanClose);
    html := html + DivClose;
    var o, c, d := OpeningTag(identified), CheckmarkSpan(identified), DetailSpan(detail);
    AppendAssociates(start, o, c);
    AppendAssociates(start, o + c, d);
    AppendAssociates(start, o + c + d, DivClose);
  }

  /** The loop of `create_html_checklist`: one item block per item of the
      checklist, in order, appended to the markup built so far. */
  method AppendItemBlocks(start: string, checklist: seq<Item>) returns (html: string)
    ensures html == start + ItemsHtml(Snapshot(checklist))
  {
    ghost var items := Snapshot(checklist);
    html := start;
    for i := 0 to |checklist|
      invariant html == start + ItemsHtml(items[..i])
    {
      var item := checklist[i];
      assert items[i] == ItemValue(item.detail, item.identified, item.id);
      html := AppendItemBlock(html, item);
      ItemsHtmlPrefix(items, i);
      AppendAssociates(start, ItemsHtml(items[..i]), ItemHtml(items[i]));
    }
    assert items[..|checklist|] == items;
  }

  /** `create_html_checklist`: the container and style block, one item
      block per item in order, then the closing tag. */
  method CreateHtmlChecklist(checklist: seq<Item>) returns (html: string)
    ensures html == ChecklistHtml(Snapshot(checklist))
  {
    html := ContainerOpen;
    html := html + ItemStyle;
    html := html + IdentifiedStyle;
    html := html + NotIdentifiedStyle;
    html := html + CheckmarkStyle;
    html := AppendItemBlocks(html, checklist);
    html := html + DivClose;
  }
}
