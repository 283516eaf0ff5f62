# Image-to-image retrieval: a Dafny model of its ranking, evaluation and dataset logic

This project models three pieces of an image-to-image retrieval pipeline for a fashion dataset:

- **Retrieval ranking and evaluation** (`notebooks/pipeline_utils.py`).
  - `cosine_topk_indices` overwrites the diagonal of an N x N similarity matrix with the sentinel -1.0. It then ranks every row by descending similarity and keeps its first k columns.
  - `evaluate_retrieval_from_topk` indexes the items by style. Every query whose style has another member gets a ground truth: the other items of that style. The function computes the query's hit count, precision@k, recall@k and hit@k, and averages them.
- **Style grouping** (`fashion-dataset/categorize.py`).
  - `safe_name` turns a metadata string into a folder-safe name.
  - `extract_style_key` maps parsed metadata to an (article type, base colour, usage) key, or to none.
  - `main` groups item ids by key in listing order. It keeps the groups with 4 to 20 existing images and names each group's folder `type_colour_usage`.
- **Group-size statistics** (`fashion-dataset/statistics.py`).
  - Image files are counted per style folder, along with their total.
  - The minimum, maximum and average group size are computed.
  - So is the distribution of group sizes in ascending order.

Modules:

- `Wrappers`: `Option` and `Result`.
- `Seqs`: sequence helpers: filtering, removal, replacement, sums, minimum and maximum, and the `Somes` of a list of options.
- `Ascii`: Python's `str.strip`, `str.lower` and `str.endswith` on ASCII.
- `Ranking`: `cosine_topk_indices`.
- `Evaluation`: `evaluate_retrieval_from_topk`.
- `Categorize`: `categorize.py`.
- `Statistics`: `statistics.py`.

How the model is set up:

- **Similarity matrix and ranking.** The similarity matrix is an `array2<real>`. It is updated in place, and each row is ranked by a selection loop.
  - Ties between equal similarities are broken by ascending column index.
  - The top-k list of a row is unique under that order (`Ranking.TopKUnique`).
- **Evaluation.** The evaluation loop is a method proved against the specification function `Evaluation.QueryRecords`.
  - Divisions of counts are exact rationals.
  - `np.mean` is the exact mean.
- **Injected inputs.** Directory listings, parsed JSON records and file existence are inputs.
  - A listing is a sequence of entries.
  - A record is a `StyleMeta` of optional strings.
  - Existence is an `imageExists` predicate.

Two behaviours of the source are stated as they are:

- **Self-exclusion is conditional.** An item is guaranteed not to be its own top-k neighbour when every other similarity in its row exceeds -1.0 and k < N (`Ranking.SelfExcluded`). With a tie at -1.0 the query itself can be returned (`Ranking.SelfRetrievedOnTie`).
- **Folder names can collide.** `safe_name` turns spaces into underscores, so different style keys can share a folder name (`Categorize.FolderNameCollision`). The copy loop then puts both groups into one folder.

## Model

| member | source | states |
|---|---|---|
| Ranking.ExcludeSelf | notebooks/pipeline_utils.py:13-15 | after the overwrite every diagonal entry is -1.0 and every other entry keeps its old value |
| Ranking.SelectBest | notebooks/pipeline_utils.py:18 | returns the position of the candidate ranked before every other candidate (greatest similarity, smallest index on ties) |
| Ranking.TopKRow | notebooks/pipeline_utils.py:18-19 | the row's top-k: exactly min(k, N) distinct columns in [0, N), in non-increasing similarity, none of the omitted columns more similar than a returned one |
| Ranking.CosineTopK | notebooks/pipeline_utils.py:9-19 | the diagonal is overwritten as in ExcludeSelf, and row i of the result is the top-k list of row i of the overwritten matrix |
| Ranking.BeforeTotal | notebooks/pipeline_utils.py:18 | the ranking order with the index tie-break is total and antisymmetric on distinct columns |
| Ranking.TopKUnique | notebooks/pipeline_utils.py:18-19 | any two top-k lists of the same row are equal, so the result does not depend on how it is computed |
| Ranking.SelfExcluded | notebooks/pipeline_utils.py:15-19 | if k < N and every other column of row i is strictly above -1.0, column i is not in row i's top-k |
| Ranking.SelfRetrievedOnTie | notebooks/pipeline_utils.py:15-19 | in the 2 x 2 matrix of sentinels, row 0's top-1 is [0]: a tie at -1.0 returns the query itself |
| Evaluation.Members | notebooks/pipeline_utils.py:30-32 | `style_to_idx[s]` after n items is ascending and holds only indices below n of style s |
| Evaluation.MembersComplete | notebooks/pipeline_utils.py:30-32 | every index of style s below n is in `style_to_idx[s]` |
| Evaluation.MembersAbsent | notebooks/pipeline_utils.py:32 | a style not seen among the first n items has no indices yet (the `setdefault` default) |
| Evaluation.MembersCount | notebooks/pipeline_utils.py:30-32 | the index list of style s is as long as s's number of occurrences, so each index appears once |
| Evaluation.IndexByStyle | notebooks/pipeline_utils.py:30-32 | the built map's keys are exactly the styles present, and each maps to all of its indices in ascending order |
| Evaluation.GroundTruth | notebooks/pipeline_utils.py:37 | the ground truth of query i is ascending and holds only indices other than i of the same style |
| Evaluation.GroundTruthComplete | notebooks/pipeline_utils.py:37 | every other index of the same style is in the ground truth |
| Evaluation.GroundTruthSize | notebooks/pipeline_utils.py:37 | the ground truth has one element fewer than the style has occurrences |
| Evaluation.GroundTruthNonEmpty | notebooks/pipeline_utils.py:37-39 | the ground truth is non-empty exactly when another item has the query's style |
| Evaluation.HitCount | notebooks/pipeline_utils.py:42 | the number of ground-truth entries that were retrieved, at most the ground-truth size |
| Evaluation.HitCountIsIntersection | notebooks/pipeline_utils.py:42 | for a ground truth without repetitions, the hit count is the size of the intersection of the retrieved set and the ground-truth set |
| Evaluation.HitCountBounds | notebooks/pipeline_utils.py:42 | the hit count is at most the ground-truth size and at most the number retrieved |
| Evaluation.HitCountPositive | notebooks/pipeline_utils.py:42-46 | the hit count is positive exactly when some retrieved index is in the ground truth, which is when hit is 1.0 |
| Evaluation.CandidateEvaluable | notebooks/pipeline_utils.py:37-39 | an item yields a record only when another item shares its style |
| Evaluation.Candidate | notebooks/pipeline_utils.py:36-53 | item i's contribution: none when its ground truth is empty, otherwise its record with style, ground-truth size and hit count |
| Evaluation.QueryRecords | notebooks/pipeline_utils.py:35-53 | the `per_query` list: records of items below N with non-empty ground truths, in item order |
| Evaluation.QueriedIsEvaluable | notebooks/pipeline_utils.py:35-53 | every `per_query` record carries its item's style, its ground-truth size and its hit count, and belongs to an item whose style occurs twice or more |
| Evaluation.EvaluableIsQueried | notebooks/pipeline_utils.py:35-53 | every item whose style occurs twice or more has a `per_query` record, so items are skipped only when their style occurs once |
| Evaluation.NumQueries | notebooks/pipeline_utils.py:35-59 | `num_queries` equals the number of items whose style occurs at least twice |
| Evaluation.QueryOrder | notebooks/pipeline_utils.py:48-53 | the `query_idx` values of `per_query` are strictly ascending |
| Evaluation.Ratio | notebooks/pipeline_utils.py:44-45 | a count divided by a positive count is non-negative, and at most 1 when the numerator is not larger |
| Evaluation.MetricsSnoc | notebooks/pipeline_utils.py:44-46 | appending a record appends exactly its precision `hit_cnt/k`, recall `hit_cnt/len(gt)` and hit indicator |
| Evaluation.Precisions | notebooks/pipeline_utils.py:44 | the `precisions` list: one non-negative `hit_cnt / k` per record |
| Evaluation.Recalls | notebooks/pipeline_utils.py:45 | the `recalls` list: one non-negative `hit_cnt / len(gt)` per record |
| Evaluation.Hits | notebooks/pipeline_utils.py:46 | the `hits` list: one 0.0 or 1.0 per record |
| Evaluation.Mean | notebooks/pipeline_utils.py:56-58 | `np.mean` of a non-empty list, over exact reals (MeanInUnitInterval) |
| Evaluation.MeanInUnitInterval | notebooks/pipeline_utils.py:56-58 | the mean of values in [0, 1] is in [0, 1] |
| Evaluation.RecordBounds | notebooks/pipeline_utils.py:41-45 | a record's hit count is at most its ground-truth size and at most k when every top-k row holds at most k indices |
| Evaluation.MeansInUnitInterval | notebooks/pipeline_utils.py:44-58 | with hit counts bounded by k and by the ground-truth size, mean precision, recall and hit all lie in [0, 1] |
| Evaluation.MetricsInUnitInterval | notebooks/pipeline_utils.py:41-58 | with k > 0 and rows of at most k indices, P@k, R@k and Hit@k lie in [0, 1] |
| Evaluation.LoopComplete | notebooks/pipeline_utils.py:35-53 | after the last item the loop holds exactly the query records; when k = 0 and no record was collected, no item was evaluable |
| Evaluation.QueryItem | notebooks/pipeline_utils.py:36-53 | one query step: no record when the ground truth is empty, otherwise the record of item i with its style, ground-truth size and hit count |
| Evaluation.EvaluateRetrieval | notebooks/pipeline_utils.py:22-61 | fails (division by zero) exactly when k = 0 and some item is evaluable; otherwise returns the query records in item order and their count; P@k, R@k and Hit@k are 0.0 when there is no query and otherwise the means of the per-query lists |
| Ascii.Lower | fashion-dataset/categorize.py:19 | lower-casing keeps the length and maps every character through the ASCII lower-case map |
| Ascii.Strip | fashion-dataset/categorize.py:18 | the result is a slice of the input starting after its leading whitespace; every character outside the slice is whitespace, and the result neither starts nor ends with whitespace |
| Ascii.StripAllSpace | fashion-dataset/categorize.py:18 | a whitespace-only string strips to the empty string |
| Ascii.StripNoop | fashion-dataset/categorize.py:18 | a string with no whitespace at either end is unchanged by strip |
| Ascii.StripLeadingSpace | fashion-dataset/categorize.py:18 | one whitespace character before a string without whitespace at its ends is stripped away |
| Categorize.Underscore | fashion-dataset/categorize.py:20-22 | the replacement stage keeps the length and maps exactly space, `/` and `\` to `_` |
| Categorize.Unbracket | fashion-dataset/categorize.py:23-24 | the deletion stage keeps exactly the characters of its input other than `(` and `)`, in order |
| Categorize.RemoveBrackets | fashion-dataset/categorize.py:23-24 | deleting `(` and then `)` equals filtering out both brackets |
| Categorize.SafeName | fashion-dataset/categorize.py:15-25 | `safe_name` strips, lower-cases, maps space, `/` and `\` to `_`, and deletes `(` and `)`. Its properties are the `SafeName*` lemmas |
| Categorize.SafeNameClean | fashion-dataset/categorize.py:15-25 | `safe_name` output has no space, `/`, `\`, `(`, `)` or upper-case letter, and is no longer than the input |
| Categorize.SafeNameKeepsPlain | fashion-dataset/categorize.py:17-24 | the characters other than the five special ones and `_` survive the stripped, lower-cased string in order |
| Categorize.SafeNameKeeps | fashion-dataset/categorize.py:17-24 | every character of the stripped, lower-cased input other than the five special ones, `_` included, appears in the safe name at the position given by the characters kept before it |
| Categorize.SafeNameKeepsOrder | fashion-dataset/categorize.py:17-24 | those surviving characters keep their order: a later one lands at a later position |
| Categorize.SafeNameFixed | fashion-dataset/categorize.py:15-25 | a name that is already safe is returned unchanged |
| Categorize.SafeNameIdempotent | fashion-dataset/categorize.py:15-25 | applying `safe_name` twice equals applying it once, provided the first result has no whitespace at its ends |
| Categorize.SafeNameNotIdempotent | fashion-dataset/categorize.py:18-24 | deleting `(` can expose whitespace: `safe_name("(" + c + a)` is `c + a` for a tab-like c, and a second pass removes c |
| Categorize.ExtractStyleKey | fashion-dataset/categorize.py:35-47 | no key exactly when typeName, baseColour or usage is missing or empty |
| Categorize.StyleKeyClean | fashion-dataset/categorize.py:43-47 | every component of a key is clean and no longer than its raw field |
| Categorize.WhitespaceTypeName | fashion-dataset/categorize.py:40-45 | a whitespace-only type name passes the emptiness check and yields an empty article type |
| Categorize.ItemId | fashion-dataset/categorize.py:63 | the item id of `<stem>.json` is the stem, except that a name whose stem is all dots is kept whole |
| Categorize.Scan | fashion-dataset/categorize.py:55-63 | the first loop's decision for one name: no item unless the name ends with `.json` and has a key, otherwise its id and key (ScanAccepts) |
| Categorize.ScanAccepts | fashion-dataset/categorize.py:54-61 | a listed name yields an item exactly when it ends with `.json` and its three fields are present and non-empty |
| Categorize.ScanEntry | fashion-dataset/categorize.py:55-63 | the per-name step of the first loop decides as Scan |
| Categorize.GroupStyles | fashion-dataset/categorize.py:51-64 | the keys of `style_groups` are exactly the keys of the accepted names, in first-seen order, and each maps to the ids with that key in listing order |
| Categorize.GroupIds | fashion-dataset/categorize.py:51-64 | `style_groups[key]`: the ids appended to that key, in listing order, at most one per listed name |
| Categorize.KeyOrder | fashion-dataset/categorize.py:51-64 | the keys of `style_groups` in insertion order, at most one per listed name |
| Categorize.GroupStep | fashion-dataset/categorize.py:59-64 | one more listed name extends the key order only by a key not seen before |
| Categorize.KeyOrderHasGroup | fashion-dataset/categorize.py:64 | a key never seen has no ids |
| Categorize.KeyOrderIff | fashion-dataset/categorize.py:64 | a key is in `style_groups` exactly when it has at least one id |
| Categorize.KeyOrderDistinct | fashion-dataset/categorize.py:51-64 | each key appears once in the insertion order |
| Categorize.GroupIdsComplete | fashion-dataset/categorize.py:59-64 | every accepted item's id is in its key's group |
| Categorize.GroupIdsSound | fashion-dataset/categorize.py:59-64 | every id in a group comes from an accepted name with that key |
| Categorize.GroupSizesLast | fashion-dataset/categorize.py:64 | one more name adds to the group sizes exactly its number of occurrences among the keys |
| Categorize.OccurrencesDistinct | fashion-dataset/categorize.py:64 | an accepted item lies in exactly one of a list of distinct keys when its key is among them |
| Categorize.GroupsPartition | fashion-dataset/categorize.py:51-64 | the group sizes add up to the number of accepted names: every accepted id is in exactly one group |
| Categorize.ImagePath | fashion-dataset/categorize.py:72 | the image path `./images/<id>.jpg` whose existence is tested |
| Categorize.ValidIds | fashion-dataset/categorize.py:70-73 | the valid ids are ids of the group whose image exists |
| Categorize.ValidIdsComplete | fashion-dataset/categorize.py:70-73 | every id of the group whose image exists is valid |
| Categorize.KeptOf | fashion-dataset/categorize.py:69-76 | the kept keys are keys of `style_groups` with 4 to 20 valid ids |
| Categorize.KeptOfComplete | fashion-dataset/categorize.py:69-76 | every key with 4 to 20 valid ids is kept |
| Categorize.FilterGroups | fashion-dataset/categorize.py:67-76 | `filtered_groups` holds exactly the groups with 4 to 20 valid ids, each mapped to its valid ids |
| Categorize.FolderName | fashion-dataset/categorize.py:83-84 | the folder name `type_colour_usage` of a key (FolderNameInjective, FolderNameCollision) |
| Categorize.FirstUnderscore | fashion-dataset/categorize.py:84 | in `a_r` with no `_` in a, the first `_` is at position \|a\| |
| Categorize.SplitAtUnderscore | fashion-dataset/categorize.py:84 | `a_r` determines a and r when a has no `_` |
| Categorize.FolderNameInjective | fashion-dataset/categorize.py:83-84 | when type and colour have no `_`, equal folder names mean equal keys |
| Categorize.FolderNameCollision | fashion-dataset/categorize.py:83-84 | type "a b" with colour "c", and type "a" with colour "b c", give two different keys with one folder name `a_b_c_d` |
| Categorize.SpacedTypeKey | fashion-dataset/categorize.py:40-47 | the key of type "a b", colour c and usage d is `(a_b, c, d)` |
| Categorize.SpacedColourKey | fashion-dataset/categorize.py:40-47 | the key of type a, colour "b c" and usage d is `(a, b_c, d)` |
| Categorize.FolderNameRegroup | fashion-dataset/categorize.py:84 | the keys `(a_b, c, d)` and `(a, b_c, d)` have the same folder name |
| Categorize.SafeNameOfSpaced | fashion-dataset/categorize.py:15-25 | the safe name of two safe words joined by a space is the words joined by `_` |
| Categorize.Categorize | fashion-dataset/categorize.py:49-94 | the number of style groups is the number of distinct keys; folder j is named after the j-th kept key and lists that key's valid ids |
| Categorize.KeptAgree | fashion-dataset/categorize.py:67-82 | the kept keys and lists of the two loops are those of the accepted names |
| Categorize.MakeFolders | fashion-dataset/categorize.py:82-86 | one folder per kept group, in order, named `type_colour_usage` and listing the group's ids |
| Categorize.NoKeysNoFolders | fashion-dataset/categorize.py:51-82 | when no name is accepted there are no groups and no folders |
| Categorize.KeptFolderBounds | fashion-dataset/categorize.py:70-76 | every folder lists 4 to 20 ids, each with an existing image |
| Statistics.ImageFileIgnoresCase | fashion-dataset/statistics.py:24 | the extension test ignores letter case |
| Statistics.IsImageFile | fashion-dataset/statistics.py:24 | the extension test: the lower-cased name ends with `.jpg`, `.jpeg` or `.png` |
| Statistics.ImageFilesChosen | fashion-dataset/statistics.py:22-25 | a file is counted exactly when its lower-cased name ends with `.jpg`, `.jpeg` or `.png` |
| Statistics.ImageCount | fashion-dataset/statistics.py:22-27 | a folder's count is at most its number of names |
| Statistics.StyleCounts | fashion-dataset/statistics.py:16-28 | `style_counts`: one image count per directory in listing order, at most one per entry (StyleCountsOfDirs) |
| Statistics.StyleCountsOfDirs | fashion-dataset/statistics.py:16-28 | `style_counts` has one entry per directory, in listing order, each the image count of that directory |
| Statistics.CountImages | fashion-dataset/statistics.py:12-29 | the loop yields `style_counts` and a total equal to their sum |
| Statistics.StyleCountsBounds | fashion-dataset/statistics.py:22-28 | each count is between 0 and the number of names in its directory |
| Statistics.NoDirsNoCounts | fashion-dataset/statistics.py:16-32 | without directories there are no counts and the total is 0 |
| Statistics.DirsCounted | fashion-dataset/statistics.py:16-32 | there are counts exactly when some entry is a directory |
| Statistics.Summarize | fashion-dataset/statistics.py:32-38 | no statistics exactly when there is no count; otherwise the number of categories is the number of counts, and the minimum and maximum are counts bounding all counts |
| Statistics.AverageBetween | fashion-dataset/statistics.py:35-38 | the minimum is at most the exact average, which is at most the maximum |
| Statistics.DivBounds | fashion-dataset/statistics.py:36 | n·lo ≤ t ≤ n·hi bounds the exact quotient t/n by lo and hi |
| Statistics.Distribution | fashion-dataset/statistics.py:56-58 | `sorted(Counter(style_counts).items())`, at most one item per count (DistributionAscending, DistributionCounts, DistributionTotal) |
| Statistics.DistributionHead | fashion-dataset/statistics.py:56-58 | the first item of the sorted distribution is the smallest count with its multiplicity; the rest counts larger values |
| Statistics.DistributionAscending | fashion-dataset/statistics.py:56-64 | the distribution is iterated in strictly ascending order of image count |
| Statistics.DistributionCounts | fashion-dataset/statistics.py:56 | the keys are exactly the distinct counts, each paired with its positive number of occurrences |
| Statistics.DistributionTotal | fashion-dataset/statistics.py:56 | the numbers of styles in the distribution add up to the number of categories |
| Statistics.StyleStatistics | fashion-dataset/statistics.py:12-56 | the total is the sum of the counts; the statistics are those of the counts, absent exactly when no entry is a directory |
| Seqs.Filter | fashion-dataset/statistics.py:22-25 | filtering keeps only elements of the input that satisfy the predicate |
| Seqs.RemoveAll | fashion-dataset/categorize.py:23-24 | removal keeps only elements of the input different from the removed value |
| Seqs.Replace | fashion-dataset/categorize.py:20-22 | replacement keeps the length and replaces exactly the occurrences of the old value |
| Seqs.Min | fashion-dataset/statistics.py:37 | `min` is an element and bounds all elements from below |
| Seqs.Max | fashion-dataset/statistics.py:38 | `max` is an element and bounds all elements from above |
| Seqs.Sum | fashion-dataset/statistics.py:36 | `sum` of a list of counts (SumBetween) |
| Seqs.SumBetween | fashion-dataset/statistics.py:36 | elements between lo and hi make a sum between n·lo and n·hi |

## Left out

- `l2_normalize` and `E @ E.T` (notebooks/pipeline_utils.py:4-11) are float32 numerics. The similarity matrix is an input of exact reals.
- `np.argsort` does not fix the order of equal similarities. The model breaks ties by ascending column index. The members that fix this order are `Ranking.SelectBest`, `Ranking.BeforeTotal`, `Ranking.TopKUnique` and `Ranking.SelfRetrievedOnTie`, and the `IsTopK` clauses of `Ranking.TopKRow` and `Ranking.CosineTopK`. The other clauses of `Ranking.TopKRow` hold for any tie order: the length, the distinct in-range columns, non-increasing similarity, and no omitted column more similar than a returned one.
- Negative k: the model takes k as a natural number. Python's `rank[:, :k]` with negative k would drop columns from the end.
- Ranking.CosineTopK: the result is a sequence of rows rather than a numpy array.
- Division and `np.mean` use exact rationals. Float rounding is not modelled.
- Evaluation.EvaluateRetrieval: `topk` must have a row for every item, and rows after the last item are ignored. A shorter `topk` makes the source raise `IndexError` at notebooks/pipeline_utils.py:41 the first time an evaluable item has no row. That error is not modelled.
- In Evaluation, items are their style labels. The `style` field is not a dictionary lookup that could fail.
- The `P@{k}` key names of the result dictionary are not modelled.
- `setdefault` and the `set(...)` conversions are modelled by their results.
- Evaluation.HitCount: the hit count is counted along the ground truth. `Evaluation.HitCountIsIntersection` proves it equal to the set-intersection size for the duplicate-free ground truths the source builds.
- Reading JSON and files (`open`, `json.load`) is not modelled. The model starts from a parsed `StyleMeta` of optional strings.
- A JSON value that is not a string, and so would be passed through `str`, is not modelled. Neither is an `articleType` that is not a dictionary.
- `os.listdir` is a sequence of entries. `os.path.isdir` is a flag of the entry.
- `os.path.exists` is the `imageExists` parameter.
- `os.makedirs` and `shutil.copy2` are left out. The copy loop's second existence check (fashion-dataset/categorize.py:90-91) asks the same predicate again, so it is not repeated.
- The group and kept counts are printed in the source; here they are results.
- Categorize.ItemId: only names ending in `.json` are given an id, because the source calls `splitext` only for those. The id is the stem, or the whole name when the stem is all dots.
- Unicode: `str.strip` and `str.lower` are modelled on ASCII, including the separator characters 28-31 that Python strips.
- statistics.py's printing, `:.2f` formatting, text-file output and matplotlib plots (lines 40-54, 57, 59-63 and 65-89) are output only and are not modelled. The order in which lines 58 and 64 iterate `sorted(dist.items())` is modelled by `Statistics.Distribution`.
- Statistics.Summarize: the average is the exact rational `sum / count`. Its printed rounding is not modelled.
