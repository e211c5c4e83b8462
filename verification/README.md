# gitoxide commit-graph accessors and `.gitattributes` line parser, in Dafny

This project models two pieces of byte-level logic from gitoxide and proves properties about them.

1. **The single-file commit-graph accessors** (`git-commitgraph/src/graph_file/access.rs`).
   A `GraphFile` is an immutable byte buffer plus the resolved offsets of its chunks:
   - the 256-entry cumulative fan-out table (OIDF);
   - the sorted 20-byte SHA-1 ids (OIDL);
   - the fixed-size commit records (CDAT);
   - the optional extra-edge list (EDGE);
   - the optional base-graph id list (BASE).

   The accessors `num_commits`, `id_at`, `commit_data_bytes`, `extra_edges_data` and the three iterators are modelled as pure functions. `lookup` is modelled as an imperative method: a binary search over the fan-out bucket of the id's first byte.

2. **The `.gitattributes` line parser** (`git-attributes/src/parse/attribute.rs`).
   It covers:
   - the attribute-name check;
   - the classification of one attribute token (`-name`, `!name`, `name=value`, `name`);
   - the attribute iterator of a line;
   - the line iterator, which counts lines, skips leading blanks, comments and empty lines, recognises `[attr]` macro lines, and turns negative patterns into errors.

## Modules

- `results.dfy` (`Results`): `Option` and `Result`.
- `bytes.dfy` (`Bytes`): byte strings as `seq<bv8>`. It holds `Flatten`, and `FindFirst`, which is the first byte matching a predicate; it plays the role of `find_byteset`, `find_not_byteset` and `splitn`.
- `oid.dfy` (`Oid`): the 20-byte `Sha1` type and `Compare`. `Compare` is the lexicographic order Rust derives for byte arrays. It is proved equal to an independent "first differing byte" definition, and proved antisymmetric and transitive. The file also splits a byte string into ids, as `chunks_exact(20)` does.
- `graph_file.dfy` (`CommitGraphFile`): the `GraphFile` record and its accessors, plus `Lookup`. Three predicates state what the code relies on:
  - `RegionsInBounds`: every region the accessors slice lies inside the buffer.
  - `WellFormed`: also a non-decreasing fan-out table, and `fan[255] <= MAX_COMMITS`.
  - `Valid`: also strictly increasing ids, each id in the bucket of its first byte.

  File parsing establishes these, and is not part of this model.
- `attribute.dfy` (`Attributes`): the tokenizer, the line parser and both iterators.

## Modelling notes

- `LexPosition` and the fan-out entries are a `u32` newtype. So in `Lookup`, Dafny checks that `(lower_bound + upper_bound) / 2` does not overflow. This holds because both bounds are at most `num_commits() <= MAX_COMMITS`, and `MAX_COMMITS` is `2^30 + 2^29 + 2^28 - 1` (`git-commitgraph/src/lib.rs:10`).
- `id_at` and `commit_data_bytes` panic when `pos >= num_commits()`. They are modelled with that condition as a `requires`. So each probe of `Lookup` is checked to satisfy `pos < num_commits()`.
- `Lookup` needs only `WellFormed` to avoid panics and overflow. Soundness holds unconditionally: a returned position holds the id. Completeness needs `Valid`: every present id is found, and `None` means the id is absent, including when its bucket is empty.
- `COMMIT_DATA_ENTRY_SIZE` is 20 + 16 bytes. Its definition (in `graph_file/mod.rs`) is not part of this model. The value follows the CDAT record layout: a root tree id, two 4-byte parent fields, and an 8-byte generation/time field.
- Rust iterators are modelled as finite sequences, or as a state record with a `Next` function and a `Collect` function that drives it to exhaustion.
- The three foreign helpers are parameters:
  - `git_quote::ansi_c::undo` is an `Unquoter`. Its only contract is that it consumes no more bytes than its input.
  - `super::ignore::parse_line` is a `PatternParser`, with no contract.
  - `unicode_bom::Bom::from` is the `bomLength` argument of `LinesNew`, with `bomLength <= |buf|`.
- `skip_blanks` returns an all-blank line unchanged, because `find_not_byteset` finds nothing. That line then reaches the pattern parser with an empty pattern. The model keeps this behaviour.
- `check_attr` accepts the empty name. So `=` parses as `("", Value(""))`, and `-` parses as `("", Unset)`. `ParseAttrAssigned` and `ParseAttrNegated` cover this case, as the code does.
- `bstr::lines` is modelled as `SplitLines`:
  - lines end at `\n`;
  - one `\r` directly before the `\n` is dropped;
  - a final unterminated line is kept;
  - a trailing `\n` produces no empty last line.

## Model

| member | source | states |
|---|---|---|
| CommitGraphFile.Lookup | git-commitgraph/src/graph_file/access.rs:65-86 | Terminates, and never overflows `u32` when computing `mid`. Every probe is in bounds for `id_at`. A returned position holds `id`. On a valid file, `r == Some(p)` iff `id_at(p) == id` for every position `p`, so the round trip holds and an absent id (empty bucket included) gives `None`. |
| CommitGraphFile.OnlyWithinBucket | git-commitgraph/src/graph_file/access.rs:66-68 | On a valid file, every position holding `id` lies in `[fan[b-1], fan[b])` for `b = id[0]`, with lower bound 0 when `b == 0`. These are the initial search bounds. |
| CommitGraphFile.NarrowBelow | git-commitgraph/src/graph_file/access.rs:79-80 | When `id` compares `Less` than the id at `mid`, every position holding `id` is below `mid`. So `upper_bound = mid` loses nothing. |
| CommitGraphFile.NarrowAbove | git-commitgraph/src/graph_file/access.rs:79-82 | When `id` compares `Greater` than the id at `mid`, every position holding `id` is above `mid`. So `lower_bound = mid + 1` loses nothing. |
| CommitGraphFile.PositionOfIdUnique | git-commitgraph/src/graph_file/access.rs:25-27 | In the sorted id list of a valid file, no two positions hold the same id. So an `Equal` match is the only position of that id. |
| CommitGraphFile.GraphFile.NumCommits | git-commitgraph/src/graph_file/access.rs:88-94 | The commit count is the last fan-out entry. With a non-decreasing table it bounds every fan-out entry, so every bucket lies in `0..num_commits()`. |
| CommitGraphFile.IdsTileLookupChunk | git-commitgraph/src/graph_file/access.rs:27-40 | The contract of `id_at` (`GraphFile.IdAt`): `id_at(pos)` for `pos` in `0..num_commits()` are exactly the OIDL chunk cut into consecutive 20-byte pieces. Glued back together they give the chunk. |
| CommitGraphFile.GraphFile.IterIds | git-commitgraph/src/graph_file/access.rs:56-58 | Yields exactly `num_commits()` ids, the i-th being `id_at(i)`. |
| CommitGraphFile.GraphFile.IterCommits | git-commitgraph/src/graph_file/access.rs:52-54 | Yields exactly `num_commits()` records, the i-th being the CDAT record at position i. |
| CommitGraphFile.IterIdsAscending | git-commitgraph/src/graph_file/access.rs:56-58 | On a valid file, `iter_ids` yields ids in strictly ascending lexicographic byte order: ascending position order is ascending id order. |
| CommitGraphFile.GraphFile.CommitDataBytes | git-commitgraph/src/graph_file/access.rs:103-116 | Requires `pos < num_commits()`, as the panic does. Yields exactly `COMMIT_DATA_ENTRY_SIZE` bytes. |
| CommitGraphFile.RecordsTileCommitData | git-commitgraph/src/graph_file/access.rs:52-54 | The records `iter_commits` walks, one per position, tile the CDAT chunk with no gap and no overlap. |
| CommitGraphFile.RecordsTileFrom | git-commitgraph/src/graph_file/access.rs:114-115 | The records from position `i` on, concatenated, are the CDAT bytes from `commit_data_offset + i * COMMIT_DATA_ENTRY_SIZE` to the end of the chunk. |
| CommitGraphFile.GraphFile.ExtraEdgesData | git-commitgraph/src/graph_file/access.rs:118-121 | Absent exactly when the EDGE range is absent. Otherwise it is the bytes of that range. |
| CommitGraphFile.GraphFile.IterBaseGraphIds | git-commitgraph/src/graph_file/access.rs:42-50 | Empty when the BASE offset is absent. Otherwise it yields exactly `base_graph_count` ids, and concatenated they are the BASE bytes. |
| Oid.Compare | git-commitgraph/src/graph_file/access.rs:79 | The id comparison says `Equal` exactly when the byte strings are equal. |
| Oid.CompareLessIsLexLess | git-commitgraph/src/graph_file/access.rs:79 | `Less` holds exactly when the first differing byte is smaller, or the left side is a proper prefix. |
| Oid.CompareAntisymmetric | git-commitgraph/src/graph_file/access.rs:79-83 | `Compare(a, b) == Less` iff `Compare(b, a) == Greater`. |
| Oid.CompareTransitive | git-commitgraph/src/graph_file/access.rs:79-83 | `Less` is transitive. |
| Oid.SplitIds | git-commitgraph/src/graph_file/access.rs:47-49 | `chunks_exact(20)` yields `len / 20` ids, and the i-th is bytes `20i..20i+20`. |
| Oid.FlattenSplitIds | git-commitgraph/src/graph_file/access.rs:47-49 | Splitting a whole number of ids and gluing them back is the identity. |
| Bytes.FindFirst | git-attributes/src/parse/attribute.rs:164-166 | Returns the first index whose byte matches, with no match before it. Returns none exactly when no byte matches. |
| Bytes.FindFirstAfterPrefix | git-attributes/src/parse/attribute.rs:164-166 | A prefix without matches shifts the first match of the rest by the prefix length. |
| Attributes.AttrValid | git-attributes/src/parse/attribute.rs:84-93 | True iff the name does not start with `-` and every byte is in `[-._A-Za-z0-9]`; the empty name is valid. |
| Attributes.CheckAttr | git-attributes/src/parse/attribute.rs:83-99 | Accepts a name iff it does not start with `-` and every byte is in `[-._A-Za-z0-9]`. On success it returns the name unchanged. Otherwise it returns `AttributeName` with the given line number and the name. |
| Attributes.SplitAtEquals | git-attributes/src/parse/attribute.rs:64-66 | Splits at the first `=` only. The name contains no `=`, and name, `=` and value rebuild the token. With no `=`, the name is the whole token. |
| Attributes.ParseAttr | git-attributes/src/parse/attribute.rs:63-80 | An `Ok` name is valid and has no `=`. A leading `-` gives `Unset` and a leading `!` gives `Unspecified`. `Set` keeps the whole token as the name. Errors are `AttributeName` at the iterator's line. |
| Attributes.ParseAttrAssigned | git-attributes/src/parse/attribute.rs:71-78 | `name=value` parses to `(name, Value(value))`, where the value may contain `=` or be empty. A bare `name` parses to `(name, Set)`. An invalid name is an error. |
| Attributes.ParseAttrNegated | git-attributes/src/parse/attribute.rs:67-70 | `-name[=v]` parses to `(name, Unset)` and `!name[=v]` to `(name, Unspecified)`. Any value is discarded. |
| Attributes.ParseAttrDoubleDashRejected | git-attributes/src/parse/attribute.rs:67-87 | A token starting with `--` is always rejected: the stripped name still starts with `-`. |
| Attributes.NextField | git-attributes/src/parse/attribute.rs:104-105 | Finds the next non-empty, white-space-free field and a shorter remainder. Finds none exactly when only white space is left. |
| Attributes.Fields | git-attributes/src/parse/attribute.rs:56-59 | Every field is non-empty and holds no white space. |
| Attributes.FieldsOfRun | git-attributes/src/parse/attribute.rs:56-59 | White space separates fields: after any white space, a maximal run of non-white bytes is exactly the next field, and the fields after it are those of the rest. |
| Attributes.FieldsKeepAllNonWhitespace | git-attributes/src/parse/attribute.rs:56-59 | The fields, concatenated, are the attribute text with its white space removed. |
| Attributes.IterNext | git-attributes/src/parse/attribute.rs:104-107 | Each yielded item consumes input and keeps the line number. |
| Attributes.IterYieldsEachField | git-attributes/src/parse/attribute.rs:101-107 | Run to the end, the attribute iterator yields exactly one `parse_attr` result per whitespace-separated field, in order, all at its line number. |
| Attributes.SplitLines | git-attributes/src/parse/attribute.rs:114 | No line contains `\n`, and there are no lines exactly when the buffer is empty. |
| Attributes.SplitLinesCrLf | git-attributes/src/parse/attribute.rs:114 | A `\r\n` terminator ends the line before it, and both bytes are dropped. |
| Attributes.SplitLinesLf | git-attributes/src/parse/attribute.rs:114 | A bare `\n` terminator ends the line before it, and only the `\n` is dropped. |
| Attributes.SplitLinesUnterminated | git-attributes/src/parse/attribute.rs:114 | A final line without `\n` is kept whole, a trailing `\r` included. |
| Attributes.SplitLinesRoundTrip | git-attributes/src/parse/attribute.rs:114 | For input without `\r`, rejoining the lines with `\n` gives back the buffer, plus a final `\n` if it lacked one. |
| Attributes.LinesNew | git-attributes/src/parse/attribute.rs:111-117 | Starts at line 0. No pending line contains `\n`. There are no pending lines exactly when nothing follows the BOM. |
| Attributes.LinesNewRoundTrip | git-attributes/src/parse/attribute.rs:111-117 | For input without `\r`, the pending lines rejoined with `\n` are the buffer after the BOM, plus a final `\n` if it lacked one. |
| Attributes.SkipBlanks | git-attributes/src/parse/attribute.rs:124-126 | Strips the leading run of space, tab and `\r`, and the result starts with a non-blank. An all-blank line is returned unchanged. |
| Attributes.ParseKind | git-attributes/src/parse/attribute.rs:169-176 | An `[attr]name` field always gives a result: `Macro(name)` exactly when `name` is valid, and otherwise `AttributeName` for `name`. Any other field gives nothing exactly when the ignore-pattern parser rejects it, and otherwise `Pattern` with the parser's pattern and mode. An `Ok` result's attribute iterator is over the given attributes at the given line number. |
| Attributes.ParseLine | git-attributes/src/parse/attribute.rs:152-177 | An empty line gives nothing. An `Ok` result's iterator carries the line number, and so does a name error. |
| Attributes.QuotedLineFails | git-attributes/src/parse/attribute.rs:157-160 | A line starting with `"` that the unquoter rejects gives `Unquote` with the unquoter's error. |
| Attributes.QuotedMacroLine | git-attributes/src/parse/attribute.rs:157-173 | A quoted line whose unquoted text is `[attr]name` gives `Macro(name)` with the iterator over the bytes after the quoted part when `name` is valid, and the name error otherwise. |
| Attributes.QuotedPatternLine | git-attributes/src/parse/attribute.rs:157-176 | A quoted line whose unquoted text is not a macro goes to the ignore-pattern parser: nothing when the parser rejects it, otherwise `Pattern` with the iterator over the bytes after the quoted part. |
| Attributes.ParseLineMacro | git-attributes/src/parse/attribute.rs:169-173 | An unquoted `[attr]name rest` line gives `Macro(name)` with iterator over `rest` iff `name` is valid, and the name error otherwise. |
| Attributes.ParseLinePattern | git-attributes/src/parse/attribute.rs:163-174 | An unquoted non-macro line splits at its first blank: the pattern goes to the ignore parser, and the attributes start at the blank. With no blank the attribute text is empty. |
| Attributes.IsNegativePattern | git-attributes/src/parse/attribute.rs:14-19 | Only a pattern whose mode contains `Negative` is negative. A macro never is. |
| Attributes.LineItem | git-attributes/src/parse/attribute.rs:127-146 | A line gives nothing exactly when its blank-stripped text is a `#` comment or `parse_line` returns `None` for it; an empty line gives nothing. An `Ok` item carries the given line number, both in the tuple and in its attribute iterator, and is never a negative pattern. A name or negation error carries the line number. |
| Attributes.LineItemOfParsed | git-attributes/src/parse/attribute.rs:127-146 | A non-comment line yields what `parse_line` makes of its blank-stripped text. `None` stays nothing, and an error passes through unchanged, `Unquote` included. A parsed kind and iterator get the line number appended, or become `PatternNegation` for a negative pattern. |
| Attributes.PatternLineYields | git-attributes/src/parse/attribute.rs:127-146 | An unquoted pattern line, after any blanks, yields `Ok((Pattern(p, m), iterator over its attributes, line))` when the ignore parser accepts it with a non-negative mode. With a negative mode it yields `PatternNegation` for the blank-stripped line. When the parser rejects it, it yields nothing. |
| Attributes.MacroLineYields | git-attributes/src/parse/attribute.rs:127-146 | An `[attr]name` line, after any blanks, yields `Ok((Macro(name), iterator over its attributes, line))` when the name is valid. Otherwise the `AttributeName` error of `parse_line` passes through. |
| Attributes.CommentLineSkipped | git-attributes/src/parse/attribute.rs:129-132 | A line whose first non-blank byte is `#` yields nothing. |
| Attributes.NegativePatternRejected | git-attributes/src/parse/attribute.rs:135-143 | A line that parses to a negative pattern yields `PatternNegation` with its line number and the blank-stripped line. |
| Attributes.NextItem | git-attributes/src/parse/attribute.rs:127-148 | The line loop consumes a prefix of the pending lines and adds its length to the counter. It yields the outcome of the last consumed line. When it finds no outcome, all lines are consumed. |
| Attributes.NextItemSkipsOnlyLinesWithoutOutcome | git-attributes/src/parse/attribute.rs:129-136 | Every line the loop consumes before the one it yields, each numbered by the counter, had no outcome: it was a comment, or `parse_line` returned `None` for it. |
| Attributes.LinesNext | git-attributes/src/parse/attribute.rs:123-149 | An item consumes at least one line. An `Ok` item carries the updated counter, and so does its attribute iterator; it is never negative. A negation error carries the counter too. |
| Attributes.CollectItemsPerLine | git-attributes/src/parse/attribute.rs:127-128 | Running the line iterator to the end yields exactly the per-line outcomes, in order, with the n-th line numbered n. |
| Attributes.PerLineItemsOrigin | git-attributes/src/parse/attribute.rs:127-128 | Every collected item is the outcome of one line at its position-derived number. |
| Attributes.OkItemsCarryTheirLineNumber | git-attributes/src/parse/attribute.rs:128-142 | Starting from line 0, every `Ok` item carries the 1-based number of the line it came from, and is exactly what that line parses to. |

## Left out

- `commit_at` and `CommitData::new`: the record decoder (`graph_file/commit_data.rs`) is not part of this model, so `IterCommits` yields the raw CDAT record slices that `CommitData::new` would decode.
- Chunk-table parsing, header validation and `Graph` chaining: their source is not part of this model. The `GraphFile` fields are taken as given, and their well-formedness is the `Valid` predicate.
- `hash_kind()` and `kind()`: they return the constants `Sha1` and `V1`.
- `path()` and the `Debug` impl: `path()` returns the stored file path, and `Debug` formats it. The model has no path field.
- `usize` arithmetic on buffer offsets (`oid_lookup_offset + pos * 20`): offsets are unbounded naturals. The `.expect` calls only assert that a `u32` position fits in a `usize`. The offset arithmetic cannot overflow on any target, because `RegionsInBounds` places every sliced region inside the buffer: `offset + count * size <= |data|`, and a buffer's length fits in a `usize`.
- Attributes.NextField: `bstr`'s `fields()` splits on Unicode white space. The model splits on ASCII white space only (tab, LF, VT, FF, CR, space). Multi-byte UTF-8 white space such as U+00A0 is not treated as a separator.
- `git_quote::ansi_c::undo`, `super::ignore::parse_line` and `unicode_bom::Bom::from`: foreign code, so they are parameters with at most the contracts listed above.
- Error display strings and the `quick_error` machinery.
- `git-repository/src/clone/checkout.rs`: filesystem checkout with a thread pool and progress reporting. It has no pure core to model.
