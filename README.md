# Activity feed: grouping, titles and detail layout

This project models the logic inside the activity-feed React component. The component shows
audit events: rent-roll extractions completing, and database access being granted or
revoked. The model covers three of its pieces:

- **Grouping by day** (`groupByDate`). The events are placed in an ordered, string-keyed
  dictionary. It starts with two empty buckets, `"Today"` and `"Yesterday"`. Each event, in input
  order, goes to `"Today"` when its local date label equals today's label. Otherwise it goes to
  `"Yesterday"` when the label equals yesterday's. Otherwise it goes to a bucket keyed by the label
  itself, created the first time that label is seen. The clock and the locale are parameters
  (`ActivityFeed.Calendar`): the label of today, the label of now minus 86 400 000 ms, and an
  opaque function from an event time to its date label. The method `GroupByDate` has the source's
  loop. It keeps a map of buckets and a sequence of keys in enumeration order, and it is proved
  against the reference functions `KeyOrder` and `Bucket`. The lemmas about those functions state
  the promises: the seeded keys come first, every event lands in exactly one bucket, order within a
  bucket is input order, created buckets are never empty, keys follow first-seen order, and the
  Today test takes precedence over the Yesterday test.
- **Event titles** (`formatEventType`). Three chained `String.prototype.replace` calls with string
  patterns. Each replaces the first occurrence of a code (`JsString.ReplaceFirst`, specified by the
  leftmost-occurrence search `JsString.IndexOf`).
  The lemmas show that the three codes never overlap one another and that no title overlaps a
  code substituted after it, so the substitutions do not cascade. Because each call replaces one
  occurrence only, a code present twice is still present in the title.
- **Detail layout**. The two independent guards in the markup choose the rent-roll details block
  (`'extraction-completed'`) or the "View Database" button (`'access-granted'`). They are modelled
  as one choice among three. This is sound because the two guards are never true together.

The component recognises the event codes `'extraction-completed'`, `'access-granted'` and
`'access-revoked'`.

## Model

| member | source | states |
|---|---|---|
| `ActivityFeed.GroupByDate` | activity-feed/src/components/ActivityFeed.tsx:40-58 | the keys of the returned dictionary are exactly `KeyOrder` of the input, every key has a bucket and every bucket a key, and each bucket holds exactly the input events whose key it is, in input order |
| `ActivityFeed.KeyOrderShape` | activity-feed/src/components/ActivityFeed.tsx:43 | the dictionary always begins with `"Today"` then `"Yesterday"`, even when both are empty, and no key appears twice |
| `ActivityFeed.KeyOrderMembers` | activity-feed/src/components/ActivityFeed.tsx:43-53 | a key is present if and only if it is one of the two seeded keys or the bucket key of some input event |
| `ActivityFeed.BucketMembers` | activity-feed/src/components/ActivityFeed.tsx:45-53 | an event is in bucket `k` if and only if it is an input event whose bucket key is `k` |
| `ActivityFeed.BucketOutsideKeyOrder` | activity-feed/src/components/ActivityFeed.tsx:52 | a key that never got created has no events, so creating a bucket on first sight starts it empty |
| `ActivityFeed.PlacedInOneBucket` | activity-feed/src/components/ActivityFeed.tsx:45-55 | each input event's key is in the dictionary, the event is in that key's bucket, and it is in no other bucket |
| `ActivityFeed.TodayTakesPrecedence` | activity-feed/src/components/ActivityFeed.tsx:47-50 | an event labelled with today's date is in `"Today"` and not in `"Yesterday"`, also when today's and yesterday's labels coincide |
| `ActivityFeed.YesterdayExcludesToday` | activity-feed/src/components/ActivityFeed.tsx:47-50 | every event in `"Yesterday"` is an input event whose label differs from today's |
| `ActivityFeed.BucketKeepsInputOrder` | activity-feed/src/components/ActivityFeed.tsx:45-53 | a bucket is the input taken at a strictly increasing list of positions: exactly the positions of the events with that key, so relative input order is kept |
| `ActivityFeed.CreatedBucketsNonEmpty` | activity-feed/src/components/ActivityFeed.tsx:51-53 | every key after the two seeded ones names a non-empty bucket |
| `ActivityFeed.KeysInFirstSeenOrder` | activity-feed/src/components/ActivityFeed.tsx:52 | for two created keys, some event of the earlier key comes before every event of the later key, so created keys appear in first-seen order |
| `ActivityFeed.ListingAppendKey` | activity-feed/src/components/ActivityFeed.tsx:73-76 | listing one more key appends that key's bucket after the buckets already listed |
| `ActivityFeed.ListingAddActivity` | activity-feed/src/components/ActivityFeed.tsx:45-55 | with distinct keys, one more input event adds exactly one copy of it to the listing when its key is among them, and nothing otherwise |
| `ActivityFeed.EveryActivityListedOnce` | activity-feed/src/components/ActivityFeed.tsx:45-55 | the buckets rendered in key order form a permutation of the input: each event appears exactly once and the bucket sizes sum to the input length |
| `JsString.IndexOf` | activity-feed/src/components/ActivityFeed.tsx:62-64 | the result is an occurrence of the pattern with no earlier occurrence from the start position, or nothing when the pattern never occurs there |
| `JsString.ReplaceFirst` | activity-feed/src/components/ActivityFeed.tsx:62 | a string without the pattern is returned unchanged; otherwise the leftmost occurrence is replaced and the text before and after it is kept verbatim |
| `JsString.OccurrenceBefore` | activity-feed/src/components/ActivityFeed.tsx:62 | text that ends before the replaced occurrence is still at the same position in the result |
| `JsString.OccurrenceAfter` | activity-feed/src/components/ActivityFeed.tsx:62 | text that starts after the replaced occurrence is still in the result, shifted by the change in length |
| `JsString.OriginBefore` | activity-feed/src/components/ActivityFeed.tsx:62 | an occurrence in the result that ends before the replacement text was at the same position in the original string |
| `JsString.OriginAfter` | activity-feed/src/components/ActivityFeed.tsx:62 | an occurrence in the result that starts after the replacement text was in the original string, shifted back by the change in length |
| `JsString.ReplacementAt` | activity-feed/src/components/ActivityFeed.tsx:62 | the replacement text sits in the result where the replaced occurrence began |
| `JsString.TwoCopiesLeaveOne` | activity-feed/src/components/ActivityFeed.tsx:62-64 | only the first occurrence is replaced: a pattern present twice without overlap is still present in the result |
| `JsString.ReplaceKeeps` | activity-feed/src/components/ActivityFeed.tsx:62-64 | replacing a pattern that never overlaps another string keeps an occurrence of that string |
| `JsString.ReplaceKeepsTwo` | activity-feed/src/components/ActivityFeed.tsx:62-64 | replacing a pattern that never overlaps another string keeps two separate copies of that string |
| `JsString.NoNewOccurrence` | activity-feed/src/components/ActivityFeed.tsx:62-64 | a replacement text that never overlaps a string creates no occurrence of it: the result holds that string only if the original did |
| `JsString.ContainsInSuffix` | activity-feed/src/components/ActivityFeed.tsx:62-64 | when a prefix never overlaps a string, any occurrence of that string in the whole text lies in the rest after the prefix |
| `EventType.FormatEventType` | activity-feed/src/components/ActivityFeed.tsx:60-65 | a type containing none of the three codes is returned unchanged |
| `EventType.CodesDisjoint` | activity-feed/src/components/ActivityFeed.tsx:62-64 | no two of the three codes overlap in any string |
| `EventType.SubstitutionsDoNotCascade` | activity-feed/src/components/ActivityFeed.tsx:60-65 | a type holding only one kind of code gets that code's substitution alone: the titles put in never trigger a later substitution |
| `EventType.RepeatedCodeKeepsACopy` | activity-feed/src/components/ActivityFeed.tsx:60-65 | a code present twice without overlap, anywhere in the type, is still present in the title, since each substitution replaces one occurrence only |
| `EventType.NoTitleContainsLaterCode` | activity-feed/src/components/ActivityFeed.tsx:62-64 | in no string does a code overlap the title of a code substituted before it, neither inside the title nor across its edges; in particular no such title contains that code |
| `EventType.ExtractionTitled` | activity-feed/src/components/ActivityFeed.tsx:62 | `'extraction-completed'` followed by text that holds neither `'access-granted'` nor `'access-revoked'` is shown as its title followed by that text |
| `EventType.GrantedTitled` | activity-feed/src/components/ActivityFeed.tsx:63 | `'access-granted'` followed by text that holds neither `'extraction-completed'` nor `'access-revoked'` is shown as its title followed by that text |
| `EventType.RevokedTitled` | activity-feed/src/components/ActivityFeed.tsx:64 | `'access-revoked'` followed by text that holds neither `'extraction-completed'` nor `'access-granted'` is shown as its title followed by that text |
| `EventType.KnownCodesGetTitles` | activity-feed/src/components/ActivityFeed.tsx:60-65 | the three codes become "Rent Roll Extraction Complete", "Database Access Granted" and "Database Access Revoked" |
| `EventType.SecondCopyKept` | activity-feed/src/components/ActivityFeed.tsx:60-65 | a code written twice in a row becomes its title followed by the second copy, verbatim |
| `EventType.Layout` | activity-feed/src/components/ActivityFeed.tsx:89-111 | the rent-roll block is chosen if and only if its guard holds, the "View Database" button if and only if its guard holds, and no block if and only if neither holds |
| `EventType.GuardsExclusive` | activity-feed/src/components/ActivityFeed.tsx:89-111 | the two guards never hold for the same event type |
| `EventType.RevokedGetsNoDetails` | activity-feed/src/components/ActivityFeed.tsx:110 | a revoked-access event gets neither block |

## Left out

- Clock and locale: `new Date()`, `Date.now()` and `toLocaleDateString` become the three fields of `Calendar`. Time zones, daylight saving and locale formats are not modelled. The model therefore allows today's and yesterday's labels to coincide, which happens when 24 hours back falls on the same calendar day.
- `toLocaleTimeString` for the time shown on each card is a display concern of the host library.
- JavaScript object key order puts integer-like keys (canonical array indices) first, in ascending order. The model keeps keys in insertion order, which is correct for every label that is not an integer-like string. Local date labels always contain separators, so they never are.
- Labels that name an inherited `Object.prototype` member (such as `"constructor"`) would make the source throw a `TypeError` on `push`. The model treats the dictionary as a plain map. Locale date labels never take those forms.
- `JsString.ReplaceFirst`: `$` substitution patterns in the replacement text are not interpreted, and regular-expression patterns are not modelled. The three replacement titles in the source contain no `$`, and all three patterns are plain strings.
- `JSON.parse(activity.details)` for the rent-roll date is a foreign parser that throws on malformed input. It is not modelled, and neither is the markup that shows its result.
- The `?? 'N/A'` fallbacks for the property name, rent-roll date and unit count are option defaults inside the markup. They are not modelled, and neither are the per-page rent-roll rows of an activity.
- The occupancy, area, rent and WALT figures and their `positive`/`negative` spans are fixed literals in the markup, with no arithmetic to model.
- JSX rendering, CSS classes, the component plumbing and the static data-file import are UI with nothing to verify. Of the rendering, only the order in which the buckets are listed (`Listing`) is modelled.
