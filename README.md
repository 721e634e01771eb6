# Masjid model: slugs, tag report, top-rated report

This project models the behaviour of the Masjid model of the gomasjidng
directory (`models/Masjid.js`). It covers three parts of that model:

- **The pre-save hook.** When a masjid's name has changed, the hook derives a
  URL slug from the name. It then finds the stored masjids whose slug is that
  candidate, or the candidate followed by a hyphen and digits, ignoring case.
  If there are N > 0 of them, it appends `-(N+1)`.
- **`getTagsList`.** This aggregation unwinds every masjid's tags, counts the
  rows of each tag, and sorts the tags by count, highest first.
- **`getTopMasajid`.** This aggregation joins every masjid with its reviews and
  keeps those with at least two reviews. It keeps each entry's `_id` and
  projects photo, name, reviews, slug and the mean rating. It then sorts by
  the mean rating (highest first) and cuts the result to ten rows.

Layout:

- `Query.dfy` holds the document-store primitives the three parts share:
  - `Filter` (for `find`, `$match` and the `$lookup` join);
  - `SortDesc` (for `$sort: { field: -1 }`);
  - `Take` (for `$limit`).
- `Slugs.dfy` holds:
  - the hook's regular expression, written as a scanner and proved equal to
    a declarative description. The pattern is matched by the database
    server's engine (PCRE in UTF-8 mode), not by JavaScript. So case folding
    also maps KELVIN SIGN to `k` and LONG S to `s`, and `$` also holds just
    before a final newline;
  - the decimal rendering of the suffix;
  - the slug choice `NextSlug`;
  - the `Document` class. Its `PreSave` method updates `slug` in place, and
    `SetName` marks the name modified when its value changes.
- `TagList.dfy` holds the tag-frequency pipeline.
- `TopRated.dfy` holds the top-rated pipeline.

The `slugs` library is a parameter, `slugify`. The model relies on it
producing lower-case ASCII letters, digits and hyphens. None of those is
special in a regular expression, so the pattern built from the candidate
means what the hook intends. The stored slugs that `find` searches are a
parameter, `stored`. It holds every document in the collection, including
the one being saved if it was stored before. The store's `isModified('name')`
answer is the document field `nameModified`.

## Model

| member | source | states |
|---|---|---|
| Slugs.Document.PreSave | models/Masjid.js:118-130 | If the name is unmodified, the slug is left alone. Otherwise the slug becomes `NextSlug` of the slugified name over the stored slugs. |
| Slugs.Document.constructor | models/Masjid.js:118-119 | A new document has its name marked modified, so its first save assigns a slug. |
| Slugs.Document.Load | models/Masjid.js:119-122 | A document read back from the store has nothing modified, so saving it again leaves its slug alone. |
| Slugs.Document.SetName | models/Masjid.js:119 | Assigning the name sets it and marks it modified, unless the new value equals the old one. |
| Slugs.PatternMatches | models/Masjid.js:125 | The pattern `^(c)((-[0-9]*$)?)$` with the `i` flag selects a stored slug exactly when one of two things holds (both directions). Either the slug is the candidate, or the candidate plus `-` and zero or more digits, under the store's case folding. Or it is such a form followed by one final newline. |
| Slugs.ScanAcceptsIff | models/Masjid.js:125 | The scanner accepts exactly the candidate and its `-digits` forms under case folding (both directions). |
| Slugs.StoreMatchingExamples | models/Masjid.js:125-126 | The Kelvin sign matches `k`, and `c` matches `c` and `C-7` followed by a final newline. `c` does not match a slug with a newline in the middle. |
| Slugs.ScanLiteral | models/Masjid.js:125 | After k matched candidate characters, the scan accepts exactly the rest of the candidate (case-insensitively), optionally followed by `-` and digits. |
| Slugs.SuffixedFormsMatch | models/Masjid.js:125 | The candidate and the candidate with any decimal suffix fall under the candidate's pattern. |
| Slugs.Find | models/Masjid.js:126 | `find` returns exactly the stored slugs the pattern selects, with their multiplicities. It is empty exactly when no stored slug matches. |
| Slugs.FindCountsMatches | models/Masjid.js:126-127 | The length of the `find` result is the number of stored positions whose slug matches. |
| Slugs.FindAppend | models/Masjid.js:126 | Storing one more slug raises the match count by one if that slug matches, and leaves it unchanged otherwise. |
| Slugs.NatToDecimal | models/Masjid.js:128 | The count renders as at least one decimal digit, with no leading zero unless the count is 0. |
| Slugs.DecimalRoundTrip | models/Masjid.js:128 | Reading the rendered numeral back gives the count it came from. |
| Slugs.NatToDecimalInjective | models/Masjid.js:128 | Different counts render as different numerals. |
| Slugs.SlugForCount | models/Masjid.js:127-128 | The slug starts with the candidate. It is the bare candidate exactly when no stored slug matched. |
| Slugs.SlugForCountInjective | models/Masjid.js:127-128 | Different match counts give different slugs. |
| Slugs.NextSlug | models/Masjid.js:123-129 | The assigned slug starts with the candidate and stays within slug characters. It is the candidate when nothing stored matches. |
| Slugs.NextSlugByMatchCount | models/Masjid.js:126-129 | With N matching stored slugs, the slug is the candidate if N = 0. Otherwise it is the candidate, `-`, and a digit string whose value is N + 1. |
| Slugs.NextSlugMatchesCandidate | models/Masjid.js:123-129 | The assigned slug is selected by its own candidate's pattern, so later saves of the same name count it. |
| Slugs.SaveRepeatedly | models/Masjid.js:118-132 | Saving k entries with one candidate, each seeing the slugs of the earlier ones, gives k slugs. |
| Slugs.SaveRepeatedlySlugs | models/Masjid.js:118-132 | Saving k entries with one candidate, each seeing the earlier ones, assigns the slugs for counts N, N+1, …, N+k-1. N is the number of matches already stored. |
| Slugs.SlugsFromAt | models/Masjid.js:127-128 | The i-th slug of that run is the slug for count N + i. |
| Slugs.SlugsFromDistinct | models/Masjid.js:127-128 | The slugs of that run are pairwise different. |
| Slugs.SlugsFromMatch | models/Masjid.js:125-128 | Every slug of that run falls under the candidate's pattern. |
| Slugs.SequentialSavesAreUnique | models/Masjid.js:118-132 | If no stored slug matches the candidate, successive saves of the same name give pairwise different slugs, none already stored. |
| Slugs.SecondAndThirdSlugs | models/Masjid.js:128 | One earlier match gives suffix `-2`; two give `-3`. |
| Slugs.ThreeSavesOfOneName | models/Masjid.js:118-132 | Three saves of one name into a store without its candidate give the candidate, then `-2`, then `-3`. |
| Slugs.FirstThreeSlugs | models/Masjid.js:127-128 | The slugs for counts 0, 1 and 2 are the candidate, `-2` and `-3`. |
| Slugs.SlugCollision | models/Masjid.js:126-131 | Slugs are not always unique, as the source's TODO says: with the candidate and its `-3` form stored, the hook assigns `-3` again. |
| Slugs.FreshWithoutGaps | models/Masjid.js:126-131 | If every matching stored slug is the slug for a smaller count, the assigned slug is not already stored. |
| Query.Filter | models/Masjid.js:126 | Keeps exactly the elements satisfying the filter, with their multiplicities, and nothing else. |
| Query.FilterCount | models/Masjid.js:126 | The filter's result has one element per satisfying position. |
| Query.PositionsAppend | models/Masjid.js:126 | Appending an element adds its position to the satisfying positions exactly when it satisfies the filter. |
| Query.InsertDesc | models/Masjid.js:138 | Inserting adds exactly the new element, and the result begins with it or with the old head. |
| Query.InsertDescSorted | models/Masjid.js:138 | Inserting into a list sorted by non-increasing key keeps it sorted. |
| Query.SortDesc | models/Masjid.js:138 | `$sort` with `-1` gives a permutation of its input, ordered by non-increasing key. |
| Query.Take | models/Masjid.js:159 | `$limit n` keeps the first min(n, length) elements, in order. |
| Query.TakeSorted | models/Masjid.js:157-159 | Cutting a sorted list keeps it sorted and keeps the best elements: no element cut off has a key above one that is kept. |
| Query.PermutationMembers | models/Masjid.js:138 | Every element of a permutation is an element of the original, and the other way round. |
| TagList.Unwind | models/Masjid.js:136 | `$unwind` yields each tag as often as it occurs across all entries' tag lists. An entry with no tags yields nothing. |
| TagList.AddOne | models/Masjid.js:137 | Accumulating one row adds at most one group. |
| TagList.AddOneCounts | models/Masjid.js:137 | `$sum: 1` on a row with tag t raises t's count by one and no other count. |
| TagList.AddOneTags | models/Masjid.js:137 | After a row with tag t, the tags present are the earlier tags plus t. |
| TagList.AddOneDistinct | models/Masjid.js:137 | Accumulating a row never gives two groups the same tag. |
| TagList.AddOnePositive | models/Masjid.js:137 | Accumulating a row keeps every count at least 1. |
| TagList.ConsTags | models/Masjid.js:137 | The tags of a list with a group in front are that group's tag and the rest's tags. |
| TagList.Group | models/Masjid.js:137 | `$group` has at most as many groups as rows. |
| TagList.GroupCorrect | models/Masjid.js:137 | One group per distinct tag, each with a count of at least 1 equal to the number of rows with that tag. A tag has a group exactly when some row carries it. |
| TagList.CountForAt | models/Masjid.js:137 | When tags are distinct, each group's count is the count recorded for its tag. |
| TagList.AtMostOnce | models/Masjid.js:137 | In a list with distinct tags, a group occurs at most once. |
| TagList.PermutationKeepsDistinctTags | models/Masjid.js:138 | Sorting the groups keeps their tags distinct. |
| TagList.PermutedTags | models/Masjid.js:138 | Sorting the groups keeps the set of tags. |
| TagList.TagsList | models/Masjid.js:134-140 | `getTagsList` returns groups whose counts never increase along the list. |
| TagList.TagsListCorrect | models/Masjid.js:134-140 | The report lists each tag that occurs in some entry exactly once, with its total number of occurrences, and no other tag. Counts never increase along the list. |
| TagList.TagsListDistinct | models/Masjid.js:134-140 | No tag appears twice in the report. |
| TagList.TagsListCounts | models/Masjid.js:134-140 | Each row's count is the tag's total number of occurrences, and is at least 1. |
| TagList.TagsListHasTag | models/Masjid.js:134-140 | A tag is in the report exactly when it occurs in some entry. |
| TagList.TagsListExample | models/Masjid.js:134-140 | Entries tagged [halal, friday], [friday] and [] give friday with count 2, then halal with count 1. |
| TagList.ExampleUnwind | models/Masjid.js:136 | Unwinding that example gives halal, friday, friday. |
| TagList.ExampleGroup | models/Masjid.js:137 | Grouping those rows gives halal 1 and friday 2. |
| TagList.ExampleSort | models/Masjid.js:138 | Sorting those groups puts friday 2 first. |
| TopRated.ReviewsOf | models/Masjid.js:145 | The join gives exactly the reviews whose `masjid` is the entry's id, with their multiplicities. |
| TopRated.Lookup | models/Masjid.js:145 | `$lookup` gives one document per entry, in order. Each keeps its entry and holds exactly the reviews whose `masjid` equals the entry's `_id`, with their multiplicities. |
| TopRated.Project | models/Masjid.js:149-155 | A projected row keeps at least two reviews, and its average rating times their number is the sum of their ratings. |
| TopRated.ProjectAll | models/Masjid.js:149-155 | `$project` gives one row per kept document, in order. Each row copies the entry's `_id`, photo, name and slug and its reviews (at least two). Its `averageRating` is the sum of their ratings divided by their number. |
| TopRated.ProjectDescribes | models/Masjid.js:149-155 | A projected row carries the entry's `_id`, photo, name and slug and exactly its reviews (at least two). Its average rating is their sum divided by their number. |
| TopRated.Average | models/Masjid.js:154 | `$avg` times the number of ratings is their sum. |
| TopRated.Candidates | models/Masjid.js:145-155 | Before sorting there are at most as many rows as entries, each with at least two reviews. |
| TopRated.CandidatesCount | models/Masjid.js:145-155 | `$match` on `reviews.1` leaves as many rows as there are entries with at least two reviews. |
| TopRated.QualifyingHasRow | models/Masjid.js:145-155 | `$match` loses no entry: every entry with at least two reviews has its row among the candidates. |
| TopRated.CandidatesDescribeEntries | models/Masjid.js:145-155 | Each row before sorting describes some stored entry. |
| TopRated.TopMasajid | models/Masjid.js:142-161 | `getTopMasajid` returns at most ten rows, ordered by average rating, highest first. |
| TopRated.TopMasajidLength | models/Masjid.js:142-161 | The report has min(10, N) rows, where N is the number of entries with at least two reviews. |
| TopRated.TopMasajidRows | models/Masjid.js:142-161 | Every row of the report describes a stored entry with at least two reviews and their mean rating. |
| TopRated.TopMasajidBest | models/Masjid.js:157-159 | The report is ordered by average rating, highest first. Its rows come from the candidates. No candidate left out rates above a row kept. |
| TopRated.TopMasajidBestOfEntries | models/Masjid.js:142-161 | No entry with at least two reviews is left out of the report while its average rating is above that of a row in the report. |
| TopRated.TopMasajidAllWhenFew | models/Masjid.js:142-161 | When at most ten entries have two reviews or more, every one of them has its row in the report. |
| TopRated.TopMasajidCorrect | models/Masjid.js:142-161 | The report has min(10, N) rows, where N is the number of entries with at least two reviews. Each row describes such an entry, and rows are ordered by average rating, highest first. The rows form a sub-multiset of the candidate rows, so no row is repeated beyond its candidate. No such entry left out rates above a row kept. |
| TopRated.SumRatingsBounds | models/Masjid.js:154 | Ratings between lo and hi sum to between lo·n and hi·n. |
| TopRated.AverageWithinRatings | models/Masjid.js:154 | The mean of ratings between lo and hi lies between lo and hi. |
| TopRated.AverageExample | models/Masjid.js:154 | Ratings 5 and 3 average 4. |

## Left out

- The schema declaration and its validators, defaults and geo fields (`models/Masjid.js:1-106`) are not modelled. They are declarative configuration checked by the store, not logic of the model.
- The text and `2dsphere` indexes (`models/Masjid.js:108-116`) are left out. The text index and the `2dsphere` index affect query speed, full-text search and geospatial proximity queries, none of which is used by the modelled operations. The `2dsphere` index also makes the store reject a save whose `location` is not valid geometry, such as a Point with an empty `coordinates` array.
- The `reviews` virtual and the `autopopulate` hooks on `find`/`findOne` (`models/Masjid.js:163-176`) are not modelled separately. Their join on `_id` = `masjid` is the same one `ReviewsOf` models for `$lookup`.
- The `slugs` library is not part of this model. It is the parameter `slugify`, assumed to return lower-case ASCII letters, digits and hyphens.
- Asynchrony, the `next()` callback and the round trip to the database are left out. The stored slugs are passed in as a sequence.
- Concurrent saves are not modelled. Two saves racing between `find` and the write can pick the same slug, and the model orders saves one after another.
- Failures of the store are not modelled: `find` rejecting, the aggregation failing, or a write the store rejects (for example an invalid `location` under the `2dsphere` index). `Slugs.SaveRepeatedly` models only saves that the store accepts; a rejected save adds no slug to the store.
- `TopRated.Average`: `$avg` is computed in exact rational arithmetic, not IEEE doubles. Ratings are numbers; a review whose rating is missing or not numeric, which `$avg` would skip, is not modelled.
- `Query.SortDesc`: the store gives no order between equal keys. The contracts promise only a permutation in non-increasing key order, and say nothing about ties.
- `TagList.TagsListCorrect`: entries whose `tags` field is missing or not an array are not modelled; each entry's tags are a sequence. For equal counts, the order of groups is unspecified, as above.
- Exporting the model with `mongoose.model` (`models/Masjid.js:178`) is plumbing with no behaviour to model.
