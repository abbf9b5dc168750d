# VisoLearn fallback exercise engine in Dafny

VisoLearn is a Streamlit app for an image-description exercise. A caregiver
picks a topic and an image is generated. The child then describes the image
in free text and names "details" from a checklist, with a bounded number of
attempts per image. When the remote image and chat service is unavailable,
the app runs in fallback mode. In that mode a local simulation
(`FallbackMode`) invents the checklist, matches the child's descriptions
against it, composes the teacher's replies and renders the checklist as
HTML. The app keeps the session state and parses checklist HTML back into
items.

This project models that engine and the session bookkeeping around it:

- `Text`: the Python string operations the engine relies on. These are
  `str.lower()`, `str.split()`, `str.strip()` and the substring test `in`,
  all restricted to ASCII.
- `Checklist`: checklist items.
  - The source's item dictionaries are shared by reference and only their
    `identified` entry is ever written. So an item is an `Item` object with
    constant `detail` and `id` and a mutable `identified` flag.
  - `ItemValue` is the same triple as a plain value.
- `FallbackMode` (fallback_mode.py):
  - the placeholder checklist generator;
  - the matcher and reply composer, `process_chat_message`, which mutates the
    caller's items in place;
  - the HTML renderer.
- `ChecklistMarkup` (app.py:80-97):
  - the regex `findall` of `extract_checklist_from_html`, written as a
    deterministic left-to-right scanner;
  - a proof of what it reads back from the renderer's output.
- `App` (app.py), centred on a `Session` class with the fields the fallback
  handlers update: checklist, attempt count and limit, image and
  conversation history. It also covers the progress report, the placeholder
  default checklist and the attempt display and exhaustion warning.

Calls to `random` are parameters constrained by contracts:
- `randint(5, 8)` is an integer `k` in [5, 8];
- `random.sample` is a duplicate-free sequence of positions (`IsSample`);
- `random.choice` is a function `randBelow` with `randBelow(n) < n`.

Three properties of the program as written follow from the proofs:

- **Aliasing makes the praise branch unreachable.**
  - `process_chat_message` copies the list shallowly, so its writes to
    `identified` reach the caller's items.
  - Its count of newly identified items therefore compares each item with
    itself and is always 0.
  - So the "Great job!" branch is never taken. `ProcessChatMessage` proves
    that the reply is a hint or the completion message and never starts
    with the praise. `CountAgainstEarlierList` shows what the count would
    have been against a list taken before matching.
- **The round trip reads every item as identified.**
  - The renderer writes the class `not-identified`, and the parser tests
    `"identified" in css_class`.
  - So parsing a rendered checklist reads every item as identified
    (`RoundTrip`), for checklists whose details are non-empty and contain
    no '<'.
  - For such checklists, the round trip is the identity exactly when the ids
    are the positions and all items are identified
    (`RoundTripIdentityIff`).
  - A detail that is empty or contains '<' cannot be read back by the
    pattern's `[^<]+` group, so neither lemma covers it.
- **The placeholder default is unreachable in fallback mode.**
  - The default sits in `update_checklist` (app.py:270-277).
  - That function returns at once in fallback mode (app.py:254-256).
  - `Session.UpdateChecklist` takes the fallback flag as a parameter. It
    proves that with the flag set, the checklist, its items' contents and
    every other field are left as they were.
  - Without the flag, the fetched markup replaces the checklist through
    `Session.ApplyChecklistMarkup`, and the default is used when nothing
    was parsed and the session has an image.

## Model

| member | source | states |
|---|---|---|
| Text.Lower | fallback_mode.py:164-165 | Reference definition, not a derived property. Lower-casing keeps the length and lower-cases each ASCII letter in place. |
| Text.IsSpace | fallback_mode.py:164 | The whitespace that `split()`, `strip()` and `\s` skip: tab, line feed, vertical tab, form feed, carriage return, the separators 0x1C-0x1F and space (ASCII only). |
| Text.Contains | fallback_mode.py:169 | `needle in hay` holds exactly when the needle occurs at some position of the haystack. |
| Text.DecimalString | fallback_mode.py:178 | The `{newly_identified}` field of the praise f-string: a non-empty string of the digits '0'-'9'. |
| Text.DecimalStringValue | fallback_mode.py:178 | Reading the printed digits back gives the number, and the first digit is '0' only for 0, as Python prints an int. |
| Text.Split | fallback_mode.py:164 | `str.split()`: skips leading whitespace, then takes the longest run of non-whitespace characters as the next word, and repeats to the end of the text. |
| Text.SplitGivesWords | fallback_mode.py:164 | Every piece of `split()` is a non-empty run without whitespace. |
| Text.SplitLosesOnlySpaces | fallback_mode.py:164 | Gluing the words of `split()` back together gives the text with only its whitespace removed. |
| Text.SplitGivesMaximalRuns | fallback_mode.py:164 | Every word of `split()` is a slice of the text bounded on both sides by whitespace or an end of the text, so no word is a piece of a longer run. |
| Text.SplitRunsInOrder | fallback_mode.py:164 | `split()` gives exactly the maximal non-whitespace runs, in order: every word is a whitespace-free run that cannot be extended, word k ends before word k+1 starts, and every non-whitespace character lies in some word. |
| Text.Strip | app.py:318 | `strip()` is a slice of the input that drops only leading and trailing whitespace, and neither end of the result is whitespace. |
| Text.IsBlank | app.py:314 | A message is blank when every character is whitespace, which includes the empty message. |
| Text.StripEmptyIffBlank | app.py:314 | The stripped message is empty exactly when the message is all whitespace. An empty message counts as blank. |
| Checklist.Snapshot | fallback_mode.py:133-137 | The contents of a list of item objects: one (detail, identified, id) triple per item, in list order, read from the items as they are now. |
| Checklist.Materialize | fallback_mode.py:131-137 | Building a checklist makes one fresh item object per entry, holding exactly the given detail, flag and id, in order. |
| Checklist.Unidentified | fallback_mode.py:183 | The pending details are empty exactly when every item is identified, and contain exactly the details of unidentified items. |
| Checklist.CountIdentified | app.py:300 | The identified count is at most the length. It equals the length exactly when all items are identified, and is 0 exactly when none is. |
| Checklist.AllIdentified | app.py:631 | `all(item["identified"] for item in checklist)`: every item is identified, which holds for an empty list. |
| FallbackMode.AnyKeyword | fallback_mode.py:108-120 | `any(word in topic_words for word in keywords)`: some keyword equals a whole word of the topic. |
| FallbackMode.BucketDetails | fallback_mode.py:107-121 | The if/elif chain: the animal details if an animal keyword is a word of the topic, else the people details, else nature, else objects, else none. |
| FallbackMode.TopicDetails | fallback_mode.py:102-121 | No topic details for an empty topic or "Unknown". Otherwise the bucket chosen for the words of the lower-cased topic. |
| FallbackMode.DetailPool | fallback_mode.py:124 | `all_details`: the topic details followed by the seven generic details. |
| FallbackMode.IsSample | fallback_mode.py:128 | The positions `random.sample(pool, n)` picks: exactly n positions, each inside the pool, pairwise distinct, in the order drawn. |
| FallbackMode.ValidDraws | fallback_mode.py:127-128 | The generator's draws: `k` from `random.randint(5, 8)` lies in [5, 8], and the picks are a sample of min(len(pool), k) distinct positions of the pool. |
| FallbackMode.FreshItems | fallback_mode.py:131-137 | Reference definition; its properties are proved in `PlaceholderChecklistIsFresh`. Item i carries the i-th chosen detail, is unidentified and has id i. |
| FallbackMode.SelectedDetails | fallback_mode.py:127-128 | Reference definition; its properties are proved in `PlaceholderChecklistIsFresh`. Sampled detail i is the pool entry at the i-th drawn position. |
| FallbackMode.PlaceholderChecklist | fallback_mode.py:126-139 | The generated checklist for the draws: the sampled details as unidentified items with ids 0..n-1. |
| FallbackMode.GeneratePlaceholderChecklist | fallback_mode.py:87-139 | Returns fresh item objects whose contents are the placeholder checklist for the topic and the draws. |
| FallbackMode.TopicDetailsIsBucket | fallback_mode.py:102-121 | The topic details are one whole bucket (animals, people, nature or objects), or none. |
| FallbackMode.PoolDuplicateFree | fallback_mode.py:92-124 | For every topic, no detail occurs twice in the pool (the bucket followed by the generic details). |
| FallbackMode.PlaceholderChecklistIsFresh | fallback_mode.py:124-139 | The generated checklist has min(pool, k) items, all unidentified, with ids equal to positions and pairwise distinct details from the pool. |
| FallbackMode.PlaceholderChecklistSize | fallback_mode.py:124-128 | With no matching bucket the checklist has 5 to 7 items; with a bucket it has 5 to 8. |
| FallbackMode.UnknownTopicIsGeneric | fallback_mode.py:103-105 | An empty topic or "Unknown" draws only generic details. |
| FallbackMode.AnimalsBeforePeople | fallback_mode.py:105-113 | Buckets are tried in order: "Family pets" names both the people and the animal bucket, and gets the animal details. |
| FallbackMode.Mentions | fallback_mode.py:164-171 | The matcher's test: some word of the split, lower-cased detail, longer than 3 characters, occurs as a substring of the lower-cased message. |
| FallbackMode.MatchItem | fallback_mode.py:160-171 | An identified item is skipped and kept. A pending item becomes identified exactly when the message mentions it. Detail and id never change. |
| FallbackMode.MatchAll | fallback_mode.py:158-171 | Reference definition; its properties are proved in `PendingItemFlagIff`, `MatchingOnlyRaisesFlags` and `MatchingIsIdempotent`. Matching keeps the length, and each item becomes its own match result. |
| FallbackMode.NewlyIdentified | fallback_mode.py:174-175 | The newly identified count is 0 exactly when every item flagged afterwards was already flagged before. |
| FallbackMode.PraiseMessage | fallback_mode.py:177-180 | "Great job! You identified N new detail", with "s" when N > 1, then ".", and the extra sentence about observation skills when N > 1. |
| FallbackMode.HintMessage | fallback_mode.py:184-186 | "Good try! Can you tell me more about the h?" with h the lower-cased hint detail. |
| FallbackMode.Encouragement | fallback_mode.py:181-188 | The hint for the pending detail at the drawn position, or the completion message when nothing is pending. |
| FallbackMode.WarnsLastAttempt | fallback_mode.py:191-196 | The notice is due when a session is given, its limit is non-zero, count + 1 >= limit, and some detail is pending. |
| FallbackMode.AttemptNotice | fallback_mode.py:190-197 | The last-attempt sentence when it is due, nothing otherwise. |
| FallbackMode.ComposeReply | fallback_mode.py:173-197 | The praise when the count is positive, otherwise the encouragement, followed by the attempt notice. |
| FallbackMode.MarkIfMentioned | fallback_mode.py:163-171 | After the word loop for one item, the item is identified exactly when it was before or when some word of its detail longer than 3 characters occurs in the lower-cased message. |
| FallbackMode.MarkMentioned | fallback_mode.py:158-171 | After the item loop, every item's flag is its old flag or-ed with whether the message mentions it. This holds even when an object is listed twice. |
| FallbackMode.ProcessChatMessage | fallback_mode.py:142-199 | The returned list is the caller's own items, with flags raised as the matcher decides and contents equal to `MatchAll` of the old contents. The reply is the hint or completion message for the pending details, plus the last-attempt notice when it is due, and never starts with "Great job!". |
| FallbackMode.ReplyWithoutNewDetails | fallback_mode.py:181-188 | With no new identification, the reply starts with "Good try!…" about the drawn pending detail, lower-cased, or is exactly the completion message when nothing is pending, and never starts with the praise. |
| FallbackMode.LastAttemptNoticeIffDue | fallback_mode.py:190-197 | The reply ends with the last-attempt notice exactly when all of these hold: a session is given, its limit is non-zero, count + 1 reaches the limit, and some detail is pending. |
| FallbackMode.MatchingOnlyRaisesFlags | fallback_mode.py:158-171 | Matching never clears a flag and never changes a detail or an id. |
| FallbackMode.PendingItemFlagIff | fallback_mode.py:160-171 | A pending item becomes identified exactly when some split word of its lower-cased detail, longer than 3 characters, occurs in the lower-cased message. |
| FallbackMode.MatchingIsIdempotent | fallback_mode.py:158-175 | Matching the same message twice identifies nothing more the second time. |
| FallbackMode.CountAgainstEarlierList | fallback_mode.py:174-175 | Against a list taken before matching, the newly identified count would be positive exactly when the message mentions some pending item. |
| FallbackMode.ShadowsExample | fallback_mode.py:164-171 | "look at the shadows and highlights" identifies "Shadows and highlights". |
| FallbackMode.RedDogExample | fallback_mode.py:164-171 | "I see a big red dog" identifies neither "Animal type" nor "Animal coloring". |
| FallbackMode.CssClass | fallback_mode.py:215 | "identified" for an identified item, "not-identified" otherwise. |
| FallbackMode.Checkmark | fallback_mode.py:216 | U+2705 for an identified item, U+274C otherwise. |
| FallbackMode.ItemHtml | fallback_mode.py:218-221 | The block of one item: the `checklist-item` div with its class, the checkmark span, the detail span, and the closing div. |
| FallbackMode.ItemsHtml | fallback_mode.py:212-221 | The blocks of all items, concatenated in list order. |
| FallbackMode.ChecklistHtml | fallback_mode.py:206-224 | The container div and style block, the item blocks, then the closing div. |
| FallbackMode.AppendItemBlock | fallback_mode.py:213-221 | One loop pass appends exactly the block of that item: opening tag with class, checkmark span, detail span and closing tag. |
| FallbackMode.AppendItemBlocks | fallback_mode.py:212-221 | The loop appends the blocks of all items, in list order. |
| FallbackMode.CreateHtmlChecklist | fallback_mode.py:202-224 | The markup is the container and style header, one block per item in order, then the closing tag. |
| ChecklistMarkup.MatchAt | app.py:89 | The pattern at the start of the text: the opening tag `<div class="checklist-item ` and a non-empty class up to `"`, then `">`, optional whitespace, the checkmark span and the rest. Gives the three groups and the text after the match. |
| ChecklistMarkup.MatchCheckmark | app.py:89 | `<span class="checkmark">`, a non-empty run without `<`, `</span>`, optional whitespace, then the detail part of the pattern. |
| ChecklistMarkup.MatchDetail | app.py:89 | `<span>`, a non-empty run without `<`, `</span>`, optional whitespace, then `</div>`. |
| ChecklistMarkup.FindAll | app.py:90 | `re.findall`: scans from the left, records a match and resumes after it, or moves one character on when no match starts here. |
| ChecklistMarkup.ExtractedItems | app.py:84-97 | Ids are match positions, and a missing or empty document yields no items. |
| ChecklistMarkup.ExtractChecklistFromHtml | app.py:80-97 | Returns fresh item objects whose contents are the parsed items. |
| ChecklistMarkup.ClassReadsIdentified | app.py:94 | Both classes the renderer writes, including "not-identified", pass the parser's "identified" substring test. |
| ChecklistMarkup.FindAllChecklistHtml | app.py:89-90 | The pattern finds, in the rendered markup, exactly one match per item in order, capturing that item's class, checkmark and detail (details non-empty and free of '<'). |
| ChecklistMarkup.RoundTrip | app.py:92-95 | For details that are non-empty and contain no '<', parsing a rendered checklist keeps every detail in order, with ids 0..n-1, but marks every item identified. |
| ChecklistMarkup.RoundTripIdentityIff | app.py:94 | For details that are non-empty and contain no '<', the round trip returns the checklist unchanged exactly when its ids are its positions and all its items are identified. |
| App.NextCount | app.py:338-340 | Reference definition; its iterate is characterised by `CountAfterIsMin`. A submission raises the count by one while it is below the limit, and keeps it otherwise. |
| App.CountAfter | app.py:335-340 | The count after n submissions from 0, each applying the saturating increment. |
| App.CountAfterIsMin | app.py:335-340 | From 0, n submissions leave the count at min(n, limit). |
| App.DisplayCount | app.py:618 | The displayed count is at most both the count and the limit, and equals one of them. |
| App.ShowsExhaustedWarning | app.py:629-632 | The warning shows when count >= limit and not every item is identified. |
| App.ExhaustedWarningIff | app.py:629-632 | The warning shows exactly when count >= limit and some item is pending, and never for an empty checklist. |
| App.ExhaustedAfterLimit | app.py:614-632 | After at least `limit` submissions, the warning shows exactly when not all items are identified, and the display shows the limit. |
| App.ProgressOf | app.py:285-300 | An empty checklist gets the no-details notice. Otherwise the report is identified/total with total the length, identified <= total, and equality exactly when all items are identified. |
| App.Percentage | app.py:301 | The percentage lies in [0, 100]. It is 100 exactly when all items are identified, and 0 exactly when none is. |
| App.OneOfFourIsQuarter | app.py:299-303 | Whichever one of four items is identified, the report is 1/4 and 25%. |
| App.DefaultChecklistIsFresh | app.py:272-277 | The default checklist has four unidentified items with ids 0-3: "Object in image", "Color", "Shape", "Background". |
| App.ChecklistAfterMarkup | app.py:267-277 | The kept checklist is empty exactly when nothing was parsed and the session has no image. Parsed items are kept whenever there are some. When nothing was parsed and there is an image, it is the four defaults. Ids are positions. |
| App.Session.Valid | app.py:335-340 | The limit is at least 1 and the count lies between 0 and the limit. The handlers keep this, since the count only rises while it is below the limit. |
| App.Session.constructor | app.py:30-56 | The initial state has no checklist, no transcript and no image, with count 0 and limit 3. |
| App.Session.GenerateImage | app.py:152-185 | Without a placeholder image nothing changes. With one, the image is set, the count goes to 0, the limit to the configured value and the transcript is cleared, and the checklist becomes fresh objects holding the placeholder checklist. |
| App.Session.SubmitDescription | app.py:312-345 | A blank message is refused and changes nothing. Otherwise the following hold. Flags follow the matcher on the stripped message. The count advances without passing the limit. Exactly two turns are appended: the child's stripped message, then the reply. The reply is composed from the count before the advance. |
| App.Session.Submit | app.py:318-340 | For a stripped, non-blank message, the flags follow the matcher, the count advances without passing the limit, and exactly the child's and the teacher's turns are appended. The reply is composed from the count before the advance. |
| App.Session.Respond | app.py:318-332 | The caller's items are matched in place and kept as the checklist. The reply covers the pending details, and the child's and teacher's turns are appended. |
| App.Session.Record | app.py:331-332 | The transcript gets the child's turn, then the teacher's, and nothing else changes. |
| App.Session.ApplyChecklistMarkup | app.py:264-277 | The checklist becomes fresh objects holding the parsed items, or the four defaults when nothing was parsed and the session has an image. The other fields are unchanged. |
| App.Session.UpdateChecklist | app.py:253-277 | In fallback mode the call returns early: the checklist, the contents of its items and every other field are unchanged. Otherwise the checklist becomes the parsed markup, or the four defaults when nothing was parsed and there is an image. |

## Left out

- The remote service client (visolearn_client.py) is not part of this model. It holds HTTP and Gradio calls, wake-up polling and the mapping of status codes to exceptions. The HTML that `update_checklist` fetches is a parameter of `ApplyChecklistMarkup`.
- `generate_placeholder_image` and `process_data_url` are not modelled: they draw with PIL and encode and decode base64. The image the placeholder drawing returns is a parameter of `GenerateImage`, with None for a failed drawing.
- run.py and run_direct.py (process launching) are left out.
- The Streamlit widgets, layout and messages are left out. This covers the warning for a blank message, clearing the message input, and the "Progress tracking unavailable" fallback, which only an exception reaches.
- `initialize_client` and the API-mode branches of `generate_image` and `process_chat_message` are left out: their results come from the remote service. Of `update_checklist`, the early return when the client cannot be initialised and the exception handler are left out; the markup it fetches is the parameter of `Session.UpdateChecklist`.
- The random number generator is left out. Its outputs are constrained parameters.
- `Text.Lower`: `str.lower()` is modelled on ASCII only. Other characters are left as they are.
- `Text.IsSpace`: whitespace for `split()`, `strip()` and `\s` is the ASCII subset of Python's whitespace. Unicode spaces are not treated as whitespace.
- `App.Percentage`: the value is a `real`. The one-decimal formatting, the floating-point rounding of `/` and the attempt progress bar's float clamp are not modelled.
- Of the session dictionary, only the count, the limit and the image are modelled. Prompt, chat, topic and the other entries are only written and never read by the fallback logic, so they are left out.
- `App.Session.Submit` raises the attempt count before it composes the reply. The source does this after appending the turns. The reply is computed from a copy of the count taken first, and nothing in between reads the count, so the final state is the same.
- The regex scanner is the deterministic match described in markup.dfy. It is not a general regular-expression engine.
- The HTML header and the reply texts are written as concatenations of shorter literals. Their values equal the source's literals.
- An empty checklist yields the "No active session or no details to identify." notice (app.py:285-286), not a 0% figure. `App.ProgressOf` follows the code, which returns the notice.
- The praise message (fallback_mode.py:177-180) is modelled by `PraiseMessage`. It is unreachable through `process_chat_message` because of the aliasing described above.
