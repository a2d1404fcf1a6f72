# Shortlist handling and schema argument resolution, modelled in Dafny

This project models two pieces of an extreme-classification training code base.

**Shortlist handlers** (`deepxml/libs/shortlist_handler.py`). For each training or evaluation instance, a handler produces a fixed-width triple:

- `label_shortlist`: candidate label indices;
- `labels_mask`: which candidates are true positives;
- `sim_mask`: the candidates' similarities.

The four variants differ only in where the raw candidate list comes from:

- **Static**: a persisted per-instance table of indices and similarities.
- **Dynamic**: a live negative sampler.
- **Hybrid**: the static row followed by a fresh sampler draw.
- **Extended**: the static row followed by an externally mined row for the same instance. That row is installed by `update_dynamic`.

The per-instance adjustment depends on the mode:

- **Training** (`mode == "train"`): the positives come first, then the candidates that are not kept positives, cut to the width and padded with `num_labels`. When there are more positives than slots, `size - min_nneg` of them are drawn without replacement. Both masks mark the leading run of kept positives.
- **Any other mode**: the raw list is kept as it is and padded. Each slot holding a positive is flagged, and the similarities are copied in.

**Schema argument resolution** (`resolve_schema_args` in `siamesexml/models/transform_layer.py`). Every `#ARGS.<name>;` placeholder in a JSON layer description is replaced by the named argument:

- A placeholder inside double quotes is replaced together with its quotes.
- A string value put in that place is quoted again.
- Python `True`/`False` are written as JSON `true`/`false`.

## Layout

- `results.dfy`, module `Results`: `Option` and `Result`.
- `shortlist.dfy`, module `Shortlist`, holds the policy as pure functions:
  - `TrainAdjust`, `EvalAdjust` and `Adjust` for `_adjust_shortlist`;
  - the value models of the tables and the sampler;
  - the queries of the four variants;
  - the lemmas about all of them.
- `shortlist_handler.dfy`, module `ShortlistHandler`: class `Handler`, with one named constructor per variant and a `kind` field saying which it is.
  - `AdjustForTraining` and `AdjustForEvaluation` fill fixed-width arrays with loops, as numpy does, and are proved equal to the policy functions `TrainAdjust` and `EvalAdjust`.
  - `AdjustShortlist` dispatches between them by mode and is proved equal to `Adjust`. `GetShortlist` allocates zero arrays on a cold start and otherwise returns the adjusted query result.
  - `PadSeq` works on sequences, and `UpdateDynamic` and `LoadShortlist` reassign the handler's fields; their contracts state the new lists or the new state directly.
  - The module also holds the factory `ConstructHandler` and the name dispatch `ParseMethod`.
- `transform_layer.dfy`, module `TransformLayer`, models `resolve_schema_args` and its parts:
  - the regular expression `#ARGS\.(.+?);` as `FindAll`;
  - `str.find` as `Find`;
  - `str.replace` as `ReplaceAll`;
  - the loop as the method `ResolveSchemaArgs`, specified by the function `Resolve`.
  - Texts built from plain stretches and unquoted placeholders (`Layout`) are resolved in general: any number of names, each used any number of times.
  - So are texts built from plain stretches and quoted placeholders (`QLayout`).

## Modelling choices

- Randomness becomes parameters.
  - `choice` is the result of `np.random.choice`: distinct positions below `len(pos_labels)`, of the requested length.
  - `draw` is the negative sampler's output for the current call.
- Similarities and masks are `real`. Only the constants `-100`, `0` and `1` are written into them, and the copied-in similarities.
- The numpy failures reachable outside training become `Err(ShapeMismatch)`:
  - a raw list longer than the width, which makes the slice assignment fail;
  - a similarity list that neither matches the raw list nor has length 1, which makes broadcasting fail.
- The training branch fails with `Err(SubsampleError)` in one case: there are more positives than slots, and the width leaves fewer than two draw positions (`size - min_nneg < 2`).
  - A negative draw size makes `np.random.choice` raise.
  - With zero positions, `operator.itemgetter()` itself raises, because it needs at least one item.
  - With one position, `operator.itemgetter` returns a single label instead of a tuple, and `np.fromiter` rejects it.
  - With the default `min_nneg = 100`, this happens whenever the width is below 102 and an instance has more positives than slots.
- A missing table row is `Err(KeyError(index))`.
  - Querying Extended before `update_dynamic` is `Err(NotSubscriptable)`, because `None[index]` raises.
  - An unknown variant name is `Err(NotImplemented(name))`.
  - `resolve_schema_args` with an argument missing from `ARGS` is `Err(KeyError(name))`.
- The cold-start check `self.shortlist.data_init` reads:
  - the sampler's flag for Dynamic;
  - the index table's flag for the others, which is false on a freshly built handler.
- Schema arguments are values that are either strings, booleans or anything else, kept as the text `str()` gives for it.

Two consequences of the code that the model makes explicit:

- Subsampling starts only when `len(pos_labels) > size_shortlist` (line 95). With between `size - min_nneg` and `size` positives, all of them are kept and fewer than `min_nneg` slots remain for negatives (`Shortlist.TrainAllPositivesKept`).
- A Hybrid query returns the static row plus `corruption + 350` sampled labels (lines 272-273), while the width grows by `corruption` only (line 274). Outside training, any static row longer than `size - 350` therefore makes the adjustment fail (`Shortlist.HybridEvalRejectsLongRows`).

## Model

| member | source | states |
|---|---|---|
| `ShortlistHandler.ParseMethod` | deepxml/libs/shortlist_handler.py:16-34 | a name is accepted only as the name of the variant returned; anything else fails with NotImplementedError carrying that name |
| `ShortlistHandler.ParseMethodRoundTrip` | deepxml/libs/shortlist_handler.py:16-34 | every variant is selected by its own name, and a name is rejected exactly when no variant has it |
| `ShortlistHandler.ConstructHandler` | deepxml/libs/shortlist_handler.py:12-34 | an unknown name fails with NotImplementedError; otherwise a fresh handler of the named kind with the given mode and label count, padding index num_labels, empty tables and no external rows; the width is widened by the corruption count exactly for Hybrid and Extended; Dynamic takes `shorty` as its sampler, Hybrid a sampler of corruption + 350 labels; every kind except Dynamic starts not loaded |
| `ShortlistHandler.Handler.Static` | deepxml/libs/shortlist_handler.py:160-165 | a static handler has padding index num_labels, the requested width and empty tables |
| `ShortlistHandler.Handler.Dynamic` | deepxml/libs/shortlist_handler.py:232-236 | a dynamic handler takes the given sampler as its candidate source, padding index num_labels, the requested width |
| `ShortlistHandler.Handler.Hybrid` | deepxml/libs/shortlist_handler.py:264-274 | a hybrid handler gets a with-replacement sampler of corruption + 350 labels and width size + corruption |
| `ShortlistHandler.Handler.Extended` | deepxml/libs/shortlist_handler.py:347-356 | an extended handler has no external rows yet and width size + corruption |
| `ShortlistHandler.Handler.UpdateDynamic` | deepxml/libs/shortlist_handler.py:358-359 | the external rows become exactly the given ones; nothing else changes |
| `ShortlistHandler.Handler.LoadShortlist` | deepxml/libs/shortlist_handler.py:203-209 | both tables take the stored contents; nothing else changes |
| `ShortlistHandler.Handler.DataInit` | deepxml/libs/shortlist_handler.py:124 | the cold-start guard reads the sampler's flag for Dynamic and the index table's flag for every other kind |
| `ShortlistHandler.Handler.Query` | deepxml/libs/shortlist_handler.py:167-367 | the four `query` methods (lines 167-170, 238-239, 276-282, 361-367): Dynamic returns the sampler's draw unchanged; every other kind succeeds only for an index with a stored row in both tables, and its result starts with the index row |
| `ShortlistHandler.Handler.PadSeq` | deepxml/libs/shortlist_handler.py:76-79 | both lists keep their contents and grow by the number of slots the label list is short of the width, with the padding index and -100; nothing is added when it is not short |
| `ShortlistHandler.Handler.AdjustShortlist` | deepxml/libs/shortlist_handler.py:81-121 | the array computation equals the policy `Adjust` for the handler's mode, width and padding index |
| `ShortlistHandler.Handler.AdjustForTraining` | deepxml/libs/shortlist_handler.py:87-108 | the fill-then-copy array loops produce exactly `TrainAdjust` |
| `ShortlistHandler.Handler.AdjustForEvaluation` | deepxml/libs/shortlist_handler.py:109-120 | the copy, flag and similarity loops produce exactly `EvalAdjust`, including both shape failures |
| `ShortlistHandler.Handler.GetShortlist` | deepxml/libs/shortlist_handler.py:123-138 | before any data is loaded the result is all zeros (labels too) without a query; afterwards it is the query for the index, adjusted with min_nneg 100, and a failed query fails the call |
| `Shortlist.Pick` | deepxml/libs/shortlist_handler.py:99-101 | the picked labels are the positives at the drawn positions, one per position, in draw order |
| `Shortlist.Kept` | deepxml/libs/shortlist_handler.py:95-101 | all positives stay, in order, when they fit; otherwise exactly size - min_nneg stay; never more than the width |
| `Shortlist.Negatives` | deepxml/libs/shortlist_handler.py:102-104 | never longer than the raw list; each negative is a raw candidate that is not a kept positive |
| `Shortlist.TrainAdjust` | deepxml/libs/shortlist_handler.py:87-108 | all three training arrays have exactly the width |
| `Shortlist.EvalAdjust` | deepxml/libs/shortlist_handler.py:109-120 | succeeds exactly when the raw list fits the width and the similarities match it or are a single value; fails only with a shape error; on success all three arrays have the width |
| `Shortlist.Adjust` | deepxml/libs/shortlist_handler.py:81-121 | in training it fails exactly when the subsampling draw size is refused, and then with a subsample error; every success has the width |
| `Shortlist.NegativesCount` | deepxml/libs/shortlist_handler.py:102-104 | each label occurs among the negatives as often as among the raw candidates, or never if it is a kept positive |
| `Shortlist.NegativesMembership` | deepxml/libs/shortlist_handler.py:102-104 | a label is a negative exactly when it is a raw candidate and not a kept positive |
| `Shortlist.NegativesAppend` | deepxml/libs/shortlist_handler.py:102-104 | the negative filter keeps raw order: it distributes over concatenation |
| `Shortlist.NegativesWithoutPositives` | deepxml/libs/shortlist_handler.py:102-104 | when no raw candidate is a kept positive (in particular with no positives) every raw candidate is a negative, in order |
| `Shortlist.PickWithoutReplacement` | deepxml/libs/shortlist_handler.py:96-101 | labels picked at distinct positions are a sub-multiset of the positives |
| `Shortlist.SubsampleKeepsDistinctPositions` | deepxml/libs/shortlist_handler.py:95-101 | subsampling keeps exactly size - min_nneg positives, the ones at the drawn positions, as a sub-multiset; otherwise all positives in order |
| `Shortlist.TrainLayout` | deepxml/libs/shortlist_handler.py:102-108 | the label array is the first width entries of kept positives, then negatives, then padding |
| `Shortlist.TrainMaskMarksPositives` | deepxml/libs/shortlist_handler.py:105-106 | a slot is flagged exactly when it lies in the kept-positive run, equivalently when it is filled with a kept positive; masks are 0/1 and sim_mask equals labels_mask |
| `Shortlist.TrainAllPositivesKept` | deepxml/libs/shortlist_handler.py:95-108 | when the positives fit the width, each one is in its own slot in order and flagged, even if fewer than min_nneg slots remain |
| `Shortlist.TrainReservesNegatives` | deepxml/libs/shortlist_handler.py:95-106 | when subsampling, the first size - min_nneg slots are flagged and drawn without replacement, and the last min_nneg slots are never flagged |
| `Shortlist.TrainDroppedPositiveIsNegative` | deepxml/libs/shortlist_handler.py:95-106 | a positive that subsampling drops but the index retrieved stays as a negative and is never flagged |
| `Shortlist.EvalKeepsOrder` | deepxml/libs/shortlist_handler.py:110-114 | outside training the raw list appears unchanged in order at the front, and every later slot is padding with mask and similarity 0 |
| `Shortlist.EvalMarksPositives` | deepxml/libs/shortlist_handler.py:115-118 | outside training a slot is flagged exactly when it holds a raw candidate that is a positive |
| `Shortlist.EvalSimsLeftAligned` | deepxml/libs/shortlist_handler.py:119-120 | similarities of matching length are copied to the front of sim_mask and zeros follow |
| `Shortlist.TrainExampleNegatives` | deepxml/libs/shortlist_handler.py:102-104 | with positives [3,7], the raw list [3,9,10,11,12] has the negatives [9,10,11,12] |
| `Shortlist.TrainExampleLabels` | deepxml/libs/shortlist_handler.py:102-108 | width 5, min_nneg 2: the label array is [3,7,9,10,11] |
| `Shortlist.TrainExampleMasks` | deepxml/libs/shortlist_handler.py:105-106 | in the same example both masks are [1,1,0,0,0] |
| `Shortlist.TrainExample` | deepxml/libs/shortlist_handler.py:87-108 | width 5, min_nneg 2, positives [3,7], raw [3,9,10,11,12] gives labels [3,7,9,10,11] and masks [1,1,0,0,0] |
| `Shortlist.EvalExample` | deepxml/libs/shortlist_handler.py:109-120 | the same inputs outside training give the raw list, mask [1,0,0,0,0] and the raw similarities |
| `Shortlist.Lookup` | deepxml/libs/shortlist_handler.py:168-169 | a table query succeeds exactly for a stored key, returns its row, and otherwise fails with KeyError for that key |
| `Shortlist.StaticQuery` | deepxml/libs/shortlist_handler.py:167-170 | succeeds exactly when both tables hold a row for the index and returns both rows; otherwise KeyError for the index |
| `Shortlist.HybridQuery` | deepxml/libs/shortlist_handler.py:276-282 | succeeds exactly when both tables hold the index; the result is the static rows each followed by the draw's labels and similarities; otherwise KeyError |
| `Shortlist.ExtendedQuery` | deepxml/libs/shortlist_handler.py:361-367 | succeeds exactly when both tables and the external rows hold the index; before update_dynamic it fails as not subscriptable, with no external row for the index as KeyError; the result is the static row then the external row, each external label with similarity 0 |
| `Shortlist.StaticQueryParallel` | deepxml/libs/shortlist_handler.py:167-170 | on parallel tables a static query returns the stored index row and similarity row, of equal length, and fails with KeyError exactly for a missing index |
| `Shortlist.HybridQueryExtendsStatic` | deepxml/libs/shortlist_handler.py:276-282 | a Hybrid query fails exactly when the static one does; otherwise its labels are the static row then the draw, of length static + sample size, with valid appended labels, and its similarities the static ones then the draw's |
| `Shortlist.ExtendedQueryExtendsStatic` | deepxml/libs/shortlist_handler.py:361-367 | an Extended query succeeds exactly when the index has a static row and an external row; its labels are the static row then the external row, its similarities the static ones then 0 for every injected label; before update_dynamic it fails as not subscriptable |
| `Shortlist.HybridEvalRejectsLongRows` | deepxml/libs/shortlist_handler.py:264-282 | outside training, a Hybrid instance whose static row is longer than size - 350 always fails the adjustment with a shape error |
| `TransformLayer.Find` | siamesexml/models/transform_layer.py:111 | -1 exactly when the pattern does not occur; otherwise the first position where it occurs |
| `TransformLayer.ReplaceAll` | siamesexml/models/transform_layer.py:115 | replacing with a text at least as long never shortens, and with a text at most as long never lengthens |
| `TransformLayer.ReplaceAllAbsent` | siamesexml/models/transform_layer.py:115 | replacing a text that does not occur changes nothing |
| `TransformLayer.ReplaceSpliceFrom` | siamesexml/models/transform_layer.py:115 | from any point of a '#'-free stretch, replacement keeps the rest of the stretch, rewrites the occurrence after it and continues behind it |
| `TransformLayer.ReplaceSplice` | siamesexml/models/transform_layer.py:115 | an occurrence after a stretch that cannot start one is rewritten, the stretch kept, and replacement continues on the rest of the text |
| `TransformLayer.PassHashHead` | siamesexml/models/transform_layer.py:115 | a stretch that does not start with the pattern and has no '#' after its first character is kept, and replacement continues behind it |
| `TransformLayer.PassThrough` | siamesexml/models/transform_layer.py:115 | replacement of a placeholder leaves a '#'-free stretch as it is |
| `TransformLayer.TokenPassesOther` | siamesexml/models/transform_layer.py:115 | replacement of one placeholder leaves a placeholder of another name as it is |
| `TransformLayer.CloseAt` | siamesexml/models/transform_layer.py:104 | finds the first ';' before any newline, and finds none exactly when every later ';' has a newline before it |
| `TransformLayer.MatchAt` | siamesexml/models/transform_layer.py:104 | a match at a position is the marker, a non-newline first name character and the shortest run to a ';' with no newline; no marker, no match |
| `TransformLayer.FindAllBound` | siamesexml/models/transform_layer.py:104 | from position i on, at most one name is found per eight characters of text |
| `TransformLayer.MatchSpans` | siamesexml/models/transform_layer.py:104 | each match starts with the marker at or after the scan start, ends with a ';' at least seven characters later, and ends before the next match begins, so matches do not overlap |
| `TransformLayer.FindAllSpans` | siamesexml/models/transform_layer.py:104 | the names found are, one per match and in order, the texts between each match's marker and its ';' |
| `TransformLayer.FindAllNamesOccur` | siamesexml/models/transform_layer.py:104 | every name found is non-empty and its placeholder token occurs in the text |
| `TransformLayer.NoMarkerNoNames` | siamesexml/models/transform_layer.py:104 | a text without the marker has no placeholders |
| `TransformLayer.FindAllShift` | siamesexml/models/transform_layer.py:104 | scanning is local: a prefix shifts the matches but does not change the names found after it |
| `TransformLayer.SkipStretch` | siamesexml/models/transform_layer.py:104 | a leading stretch without '#' contributes no names and does not change the names found after it |
| `TransformLayer.PlaceholderAfter` | siamesexml/models/transform_layer.py:104 | a placeholder preceded by no '#' is the first name found, followed by the names of the rest |
| `TransformLayer.SinglePlaceholder` | siamesexml/models/transform_layer.py:104 | a text whose only '#' is one placeholder's yields exactly that name |
| `TransformLayer.LayoutNames` | siamesexml/models/transform_layer.py:104 | in a text of plain stretches and unquoted placeholders the names found are the placeholders' names, in text order, repeats included |
| `TransformLayer.Render` | siamesexml/models/transform_layer.py:107 | `str` of a string is the string, of a boolean True or False, of anything else its recorded text |
| `TransformLayer.Bare` | siamesexml/models/transform_layer.py:107-110 | a boolean is written as JSON true/false; any value whose text is "True" or "False" (a string too) becomes true/false; any other text is inserted unchanged |
| `TransformLayer.InQuotes` | siamesexml/models/transform_layer.py:111-114 | a string in a quoted placeholder comes back between double quotes, even "True"; any other value gets the unquoted rendering, so a boolean is JSON true/false |
| `TransformLayer.Step` | siamesexml/models/transform_layer.py:106-115 | one pass fails exactly when the name is not an argument, with KeyError for that name |
| `TransformLayer.Fold` | siamesexml/models/transform_layer.py:105-115 | the passes fail exactly when some name is missing, and then with the first missing one in order |
| `TransformLayer.Resolve` | siamesexml/models/transform_layer.py:103-116 | resolution raises KeyError exactly when some placeholder found names a missing argument, and the key named is such a name |
| `TransformLayer.ResolveSchemaArgs` | siamesexml/models/transform_layer.py:103-116 | the loop over the names found in the original text computes `Resolve` |
| `TransformLayer.NoPlaceholderNoChange` | siamesexml/models/transform_layer.py:103-116 | a text holding no complete placeholder token comes back unchanged |
| `TransformLayer.NoQuotedToken` | siamesexml/models/transform_layer.py:111 | a lone placeholder without a double quote on both sides is not found as quoted |
| `TransformLayer.NoQuotedInLayout` | siamesexml/models/transform_layer.py:111 | in a text of plain stretches and unquoted placeholders, filled or not, no placeholder is found as quoted |
| `TransformLayer.ResolveSingleUnquoted` | siamesexml/models/transform_layer.py:103-116 | a lone unquoted placeholder becomes the bare rendering of its argument, the rest of the text unchanged; a missing argument raises KeyError |
| `TransformLayer.StepQuoted` | siamesexml/models/transform_layer.py:111-115 | the pass for a lone quoted placeholder replaces it, quotes included, with the quoted rendering of its value |
| `TransformLayer.ResolveSingleQuoted` | siamesexml/models/transform_layer.py:111-115 | a lone quoted placeholder is replaced with its quotes: a string value comes back quoted, others bare |
| `TransformLayer.ReplaceLayout` | siamesexml/models/transform_layer.py:115 | replacing a placeholder fills every slot of that name and nothing else; a name already filled has no placeholder left |
| `TransformLayer.StepLayout` | siamesexml/models/transform_layer.py:106-115 | one pass puts the bare value in every slot of its name |
| `TransformLayer.FoldLayout` | siamesexml/models/transform_layer.py:105-115 | passes for present names fill their slots, one name after another, repeated names included |
| `TransformLayer.ResolveUnquotedMissing` | siamesexml/models/transform_layer.py:103-116 | with any number of unquoted placeholders, resolution fails with KeyError for the first placeholder, in text order, whose name is missing |
| `TransformLayer.ResolveUnquoted` | siamesexml/models/transform_layer.py:103-116 | with any number of unquoted placeholders and every name present, each placeholder, however often its name recurs, becomes the bare rendering of its own value, the rest unchanged |
| `TransformLayer.QLayoutNames` | siamesexml/models/transform_layer.py:104 | in a text of plain stretches and quoted placeholders the names found are the placeholders' names, in text order, repeats included |
| `TransformLayer.ReplaceQLayout` | siamesexml/models/transform_layer.py:115 | replacing a quoted placeholder fills every slot of that name, quotes included, and nothing else; a name already filled has no quoted placeholder left |
| `TransformLayer.QLayoutAbsent` | siamesexml/models/transform_layer.py:111-115 | once a name's quoted slots are filled, neither its quoted nor its unquoted placeholder occurs in the text |
| `TransformLayer.StepQLayout` | siamesexml/models/transform_layer.py:106-115 | the first pass for a name puts the quoted rendering of its value in every slot of that name; a later pass for the same name changes nothing |
| `TransformLayer.FoldQLayout` | siamesexml/models/transform_layer.py:105-115 | passes for present names fill their quoted slots, one name after another; repeats change nothing |
| `TransformLayer.FoldFirstMissing` | siamesexml/models/transform_layer.py:105-107 | the passes fail with KeyError for the first name, in order, that is not an argument |
| `TransformLayer.ResolveQuotedMissing` | siamesexml/models/transform_layer.py:103-116 | with any number of quoted placeholders, resolution fails with KeyError for the first placeholder, in text order, whose name is missing |
| `TransformLayer.ResolveQuoted` | siamesexml/models/transform_layer.py:103-116 | with any number of quoted placeholders and every name present, each one, quotes included and however often its name recurs, becomes its value between quotes for a string and bare otherwise; the rest is unchanged |
| `TransformLayer.QuotedExample` | siamesexml/models/transform_layer.py:103-116 | `{"in": "#ARGS.x;", "out": "#ARGS.x;", "p": "#ARGS.y;"}` gives each slot the quoted rendering of its own name's value, so a number given for x is inserted bare at both places |
| `TransformLayer.TwoNamesExample` | siamesexml/models/transform_layer.py:103-116 | in a JSON object with two names, one used twice, every placeholder gets the bare value of its own name |
| `TransformLayer.BooleanExample` | siamesexml/models/transform_layer.py:108-110 | `{"bias": #ARGS.bias;}` with bias True gives `{"bias": true}` |
| `TransformLayer.MixedNames` | siamesexml/models/transform_layer.py:104 | a name used once quoted and once unquoted is found twice |
| `TransformLayer.MixedFirstPass` | siamesexml/models/transform_layer.py:111-115 | the first pass for such a name replaces only the quoted occurrence |
| `TransformLayer.MixedOccurrences` | siamesexml/models/transform_layer.py:103-116 | both occurrences end up replaced, the quoted one quoted and the unquoted one bare, because the name is processed twice |

## Left out

- The `Table` store and the `NegativeSampler` (`lookup.py`, `negative_sampling.py`) are not part of this model.
  - A table is a map from instance index to row, with a loaded flag.
  - A sampler is its size, label range and replacement flag.
  - Their persistence formats and memory-mapped mode are not modelled.
- `update_shortlist` and `save_shortlist` of Static, Hybrid and Extended are not modelled. They only hand rows and file paths to the table store. `load_shortlist` is modelled as the tables taking the stored contents.
- The probability distribution of `np.random.choice` and of the sampler are not modelled. The draw is a parameter, constrained only to what the call can return.
- `_pad_seq` extends its argument lists in place. `Handler.PadSeq` returns the extended lists instead, so aliasing of the caller's lists is not captured.
- The Dynamic handler's draw (`query(num_samples=1)`) is taken as a list of labels and a list of similarities. The sampler's own output format and `data_init` behaviour belong to `negative_sampling.py`, which is not part of this model.
- `ConstructHandler` takes every argument explicitly: the defaults of `construct_handler` (`mode='train'`, `size_shortlist=-1`, `shorty=None`, `corruption=200`) are not modelled. With `shorty=None` a Dynamic handler has no sampler and raises AttributeError at line 124 on its first `get_shortlist`; the model always has a sampler.
- `Shortlist.ExtendedQuery`: an index missing from the external rows is `Err(KeyError(index))`. The source raises whatever the injected object raises at line 364 (KeyError for a dict, IndexError for a list).
- `pos_labels=None`, the default of `get_shortlist`, is not modelled: both branches would raise a TypeError on it.
- `label_mapping`, `model_dir` and `in_memory` are stored by the source but never used by the modelled operations, so they are not modelled.
- Negative `size_shortlist`, such as the default -1, is not modelled: widths are natural numbers.
- Similarities are not rounded to float32. Label indices are not bounded to int64.
- `Shortlist.EvalAdjust`: a raw list longer than the width is a shape error. In numpy a raw list of length 1 is broadcast into the slice `[:1]`, which has length min(1, width), so the two differ only at width 0. There numpy accepts the assignment at line 114 and then raises IndexError at line 118 if the candidate is a positive.
- The rest of `transform_layer.py` is not modelled: the layer classes and `fetch_json`, which reads the file and parses the JSON after substitution.
- `TransformLayer.Find`, `TransformLayer.ReplaceAll` and `TransformLayer.FindAll` work on `char` sequences. Python's Unicode string semantics beyond that, and regular-expression flags, are not modelled.
- `TransformLayer.ReplaceAll`: its own contract states only the length bounds; what it replaces is stated by `ReplaceAllAbsent`, `ReplaceSplice`, `PassThrough`, `TokenPassesOther` and `ReplaceLayout`.
- `TransformLayer.FindAll` carries no contract of its own; what it finds is stated by `FindAllBound`, `FindAllSpans`, `FindAllNamesOccur`, `PlaceholderAfter`, `SinglePlaceholder` and `LayoutNames`.
- `TransformLayer.ResolveUnquoted` and `TransformLayer.ResolveUnquotedMissing` cover a text whose placeholders are all unquoted, under these conditions:
  - no '#' in the plain stretches or in the inserted values;
  - every placeholder is followed by a non-empty stretch that does not start with a double quote.
  - Without them an inserted value or a stretch could complete or hide a placeholder, and the names found would no longer be the layout's.
- `TransformLayer.ResolveQuoted` and `TransformLayer.ResolveQuotedMissing` cover a text whose placeholders are all quoted, with no '#' in the plain stretches or in the quoted renderings of the values, for the same reason.
- `TransformLayer.MixedOccurrences`: a text that mixes quoted and unquoted placeholders is proved only for one name used once each way. The general case is not proved. There a pass fills the quoted slots of its name or its unquoted slots, depending on whether a quoted one is still left, so what a text looks like after some passes depends on how often each name has been seen so far; the layouts above do not express that.
