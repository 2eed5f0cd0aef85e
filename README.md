# gene_pairs in Dafny

A Dafny model of the sequential core of gene_pairs, a C++ tool that finds
gene pairs in expression tables. The model covers the following parts.

- **String helpers** of namespace `Utils` (`src/utils.h`): prefix and suffix
  tests, the extension rule that picks a delimiter, the strip family, prefix
  and suffix removal, `split`, the two `join`s, `replace`, `reverse`,
  `getOperation` and the case mappings.
- **The table loader** `DataFrame` (`src/dataframe.cpp`).
  - `getSize` is the counting pass over the file's lines.
  - `read_csv` fills the index name, the column labels, the row labels and
    the grid cell by cell. It is modelled as a parse over a sequence of lines.
  - Also modelled: the label-length constructor and the four shape-checked
    elementwise operators.
- **The statistics** of namespace `Algorithm` (`src/algorithm.cpp`):
  - the operator-name dispatch of `column_operate`;
  - plain Pearson, and the loop and vectorised NaN-aware Pearson variants,
    with exact real sums and an uninterpreted square root;
  - Spearman's rank assignment;
  - Kendall's concordant and discordant counting.
- **The two scanners.**
  - `StablePairs` (`src/stablepairs.cpp`) reports column pairs i < j whose
    samples are ordered one way often enough. In reverse mode it also needs
    the opposite ordering in a target table.
  - `CorrPairs` (`src/corrpairs.cpp`) combines two expression columns with
    an arithmetic operator. It reports the pair for each target column whose
    correlation with the combined column reaches a threshold.

Files and modules:

| file | module | models |
|---|---|---|
| values.dfy | Values | error outcomes, doubles with NaN, the Eigen matrix |
| utils.dfy | Utils | `src/utils.h` |
| pairs.dfy | Pairs | the nested `i < j` loops shared by Kendall and both scanners |
| dataframe.dfy | Frames | `src/dataframe.cpp` |
| algorithm.dfy | Algorithm | `src/algorithm.cpp` |
| stablepairs.dfy | Stable | `src/stablepairs.cpp` |
| corrpairs.dfy | Correlation | `src/corrpairs.cpp` |

Conventions:

- **Doubles** are `Double = NaN | Num(real)`. Every ordered comparison with
  a NaN is false and any arithmetic with a NaN gives NaN.
- **Exceptions and undefined accesses** become `Result` values.
  `std::invalid_argument` is `InvalidArgument`, `Utils::FileFormatError`
  is `FileFormatError` and a failed `stod` is `ParseError`. An index
  outside a vector or matrix, which is undefined behaviour in C++, is
  `OutOfRange` where the C++ code can reach it; the one precondition that
  instead rules such a read out is listed under "## Left out".
- **Files** are `Option<seq<string>>`: their lines, or `None` when the file
  cannot be opened. `read_csv` opens the file a second time; whether that
  succeeds is a boolean parameter.
- **Abstract operations.** `std::stod`, `std::sqrt` and
  `Algorithm::correlation` are function parameters. `Utils::exists` on the
  target path is a boolean parameter.
- **Imperative code stays imperative.**
  - `DataFrame`, `StablePairs` and `CorrPairs` are classes whose methods
    update their fields: the counts and labels, the grid, and the `pairs`
    vector.
  - Each such method is tied by its `ensures` to a specification function of
    the old state: `GetSizeSpec`, `ReadCsvSpec`, `StableSpec`, `ReverseSpec`
    and `CorrSpec`. Lemmas state the source's promises about those functions.
  - Loops over values stay loops: `split`, `join`, `replace`, the NaN-aware
    Pearson, the Spearman index sort and Kendall's counting. Each is proved
    against a reference function.

## Model

| member | source | states |
|---|---|---|
| Utils.GetOperation | src/utils.h:28-41 | each operator is mapped to one of the characters `+ - * /` |
| Utils.OperationOfSymbol | src/utils.h:28-41 | exactly the four characters `+ - * /` name an operator |
| Utils.GetOperationRoundTrip | src/utils.h:28-41 | the character of each operator maps back to that operator, and distinct operators get distinct characters |
| Utils.EqualForward | src/utils.h:65 | std::equal from the front holds iff pre is the first \|pre\| characters of s |
| Utils.EqualBackward | src/utils.h:78 | std::equal over reverse iterators holds iff suf is the last \|suf\| characters of s |
| Utils.StartsWith | src/utils.h:61-67 | true iff pre is a prefix of s; false whenever s is shorter than pre |
| Utils.EndsWith | src/utils.h:74-80 | true iff suf is a suffix of s; false whenever s is shorter than suf |
| Utils.GetDelim | src/utils.h:88-97 | `,` iff the name ends in "csv" (tested first); tab iff it does not but ends in "txt" or "tsv"; FileFormatError iff it ends in none of the three; no dot is needed |
| Utils.FindFirstNotOf | src/utils.h:105 | the first position from `from` on whose character is outside pat, or none when every later character is in pat |
| Utils.FindLastNotOf | src/utils.h:109 | the last position before `end` whose character is outside pat, or none when all are in pat |
| Utils.FindFirstNotOfFinds | src/utils.h:123 | find_first_not_of finds nothing iff s is all pattern, and otherwise finds exactly the first non-pattern position |
| Utils.FindLastNotOfFinds | src/utils.h:136 | find_last_not_of finds nothing iff s is all pattern, and otherwise finds exactly the last non-pattern position |
| Utils.FirstNotAfterLast | src/utils.h:109-113 | the first non-pattern position is never after the last one, so the substring strip takes is well defined |
| Utils.Strip | src/utils.h:104-115 | "" for an all-pattern string; otherwise from the first non-pattern character to the last, except that when the two coincide the trailing pattern characters are kept |
| Utils.StripAllPattern | src/utils.h:104-139 | strip, lstrip and rstrip all return "" on a string made only of pattern characters |
| Utils.StripOneOutside | src/utils.h:110-111 | with a single non-pattern character, strip returns the same as lstrip: the trailing pattern stays |
| Utils.StripTwoOutside | src/utils.h:112-113 | with two or more non-pattern characters, strip equals rstrip of lstrip |
| Utils.LStrip | src/utils.h:122-128 | drops exactly the leading pattern characters, giving "" for an all-pattern string |
| Utils.RStrip | src/utils.h:135-141 | drops exactly the trailing pattern characters, giving "" for an all-pattern string |
| Utils.StripsLeaveNonPatternEnds | src/utils.h:122-141 | a non-empty lstrip result starts with a non-pattern character, and a non-empty rstrip result ends with one |
| Utils.LRmStr | src/utils.h:147-152 | when rms is a prefix, rms followed by the result is s; otherwise s is returned unchanged |
| Utils.RRmStr | src/utils.h:158-163 | when rms is a suffix, the result followed by rms is s; otherwise s is returned unchanged |
| Utils.LRmStrAfterPrefix | src/utils.h:147-152 | removing a prefix that was prepended gives back the rest |
| Utils.RRmStrAfterSuffix | src/utils.h:158-163 | removing a suffix that was appended gives back the rest |
| Utils.StripBothEnds | src/utils.h:99-115 | corrected strip: "" for an all-pattern string, otherwise exactly the span from the first to the last non-pattern character |
| Utils.StripBothEndsIsRStripOfLStrip | src/utils.h:99-141 | the corrected strip is rstrip after lstrip, as the doc comment promises |
| Utils.StripKeepsTrailingBlank | src/utils.h:110-111 | strip(" a ") is "a " as written, while the corrected strip gives "a" |
| Utils.Fields | src/utils.h:170-198 | the reference split of a string into fields always has at least one field |
| Utils.FieldsCount | src/utils.h:170-198 | the number of fields is the number of separator characters plus one |
| Utils.FieldsAvoidSeparators | src/utils.h:170-198 | no field contains a separator character |
| Utils.FieldsAtEdges | src/utils.h:179-188 | a leading separator yields an empty first field and a trailing one an empty last field |
| Utils.FieldsBetweenSeparators | src/utils.h:190-191 | when separators sit at p and p + 1, the field numbered by the count of separators up to and including p exists and is empty |
| Utils.FindFirstOf | src/utils.h:174-186 | the first separator position from `from` on, or none when no later character is a separator |
| Utils.SplitFirst | src/utils.h:171-180 | the fields pushed before the loop, together with the fields that remain after `las`, are all the fields of s |
| Utils.SplitNext | src/utils.h:181-197 | one round of the loop moves past the next separator and keeps pushed fields plus remaining fields equal |
| Utils.Split | src/utils.h:170-198 | the vector is cleared first; an empty string gives no fields, and any other string gives exactly its reference fields |
| Utils.JoinSplitRoundTrip | src/utils.h:170-234 | joining the fields of s with a one-character separator c gives back s |
| Utils.Join | src/utils.h:222-234 | the template join returns the elements separated by sep, "" for none |
| Utils.JoinInto | src/utils.h:205-215 | the out-parameter join leaves ret unchanged for no elements, overwrites it with the single element for one, and appends the joined elements for two or more |
| Utils.TerminatedThenLast | src/utils.h:211-214 | appending every element but the last with the separator and then the last element is the joined string |
| Utils.Find | src/utils.h:245 | the first occurrence of pat from `from` on, or none when none starts there |
| Utils.ReplaceWithoutOccurrence | src/utils.h:242-255 | a string in which pat never occurs is returned unchanged |
| Utils.ReplaceBySelf | src/utils.h:242-255 | replacing pat by itself returns the string unchanged |
| Utils.ReplaceFromSkipsTo | src/utils.h:245-249 | the next occurrence is replaced and the scan resumes after it, so matches do not overlap |
| Utils.Replace | src/utils.h:242-255 | for a non-empty pat, the loop's result is the left-to-right replacement of every non-overlapping occurrence |
| Utils.Reverse | src/utils.h:261-265 | the result has the same length and holds the characters in reverse order |
| Utils.ReverseInvolution | src/utils.h:261-265 | reversing twice gives back the string |
| Utils.CaseMappingsAbsorb | src/utils.h:504-513 | upper-casing after lower-casing is upper-casing, and the other way round |
| Utils.StrToUpper | src/utils.h:504-506 | every character is replaced by its upper-case form and the length is kept |
| Utils.StrToLower | src/utils.h:511-513 | every character is replaced by its lower-case form and the length is kept |
| Values.Matrix.Col | src/algorithm.cpp:9 | column c has one entry per row, row r holding cell (r, c) |
| Values.Matrix.Set | src/dataframe.cpp:68 | writing cell (r, c) changes that cell only and keeps the shape |
| Values.Zero | src/dataframe.cpp:47-48 | resize and setZero give an nrows x ncols grid of zeros |
| Pairs.RowPairs | src/stablepairs.cpp:32 | one round of the inner loop visits (i, i+1) .. (i, hi-1), in that order |
| Pairs.RowsBeforeMembers | src/stablepairs.cpp:31-32 | the first `rows` rounds visit exactly the pairs i < j < n with i < rows |
| Pairs.IndexPairsExactly | src/stablepairs.cpp:31-32 | the nested loops visit exactly the pairs i < j < n |
| Pairs.RowsBeforeLength | src/stablepairs.cpp:31-32 | the first `rows` rounds visit rows(2n - rows - 1)/2 pairs |
| Pairs.IndexPairsLength | src/stablepairs.cpp:31-32 | the nested loops visit n(n-1)/2 pairs |
| Pairs.RowsBeforeSorted | src/stablepairs.cpp:31-32 | the pairs of the first rounds are visited in lexicographic order |
| Pairs.IndexPairsSorted | src/stablepairs.cpp:31-32 | every pair is visited in lexicographic (i, j) order |
| Pairs.KeepAppend | src/stablepairs.cpp:34-38 | what the loop appends over two stretches of pairs is what it appends over each, in order |
| Pairs.KeepLength | src/stablepairs.cpp:34-38 | at most one element is appended per visited pair |
| Pairs.KeepOrigins | src/stablepairs.cpp:34-38 | every appended element comes from its own visited pair, and the pairs increase with the elements |
| Pairs.KeepMembers | src/stablepairs.cpp:34-38 | an element is appended iff some visited pair yields it |
| Pairs.CountIfAppend | src/algorithm.cpp:141-149 | a counter over two stretches of pairs is the sum of the counts over each |
| Pairs.CountIfBound | src/algorithm.cpp:141-149 | a counter never exceeds the number of pairs visited |
| Pairs.CountIfExclusive | src/algorithm.cpp:146-147 | three mutually exclusive and exhaustive tests count every pair once |
| Frames.MaxLength | src/dataframe.cpp:12-20 | no label is longer than the result, some label has that length, and it is 0 without labels |
| Frames.StreamCells | src/dataframe.cpp:55-58 | std::getline on a stringstream yields one cell per delimiter, plus one unless the text is empty or ends in the delimiter, and no cell holds the delimiter |
| Frames.StreamCellsRebuild | src/dataframe.cpp:55-58 | joining the cells with the delimiter gives back the line, less a final delimiter |
| Frames.Resize | src/dataframe.cpp:190-191 | vector::resize cuts or pads with "" to exactly n labels |
| Frames.Counts | src/dataframe.cpp:176-184 | each line's cell count is the number of cells of its rstripped text |
| Frames.MaxOf | src/dataframe.cpp:184 | the maximum bounds every count and is one of them |
| Frames.MaxCellsBounds | src/dataframe.cpp:176-185 | no line has more cells than the count getSize keeps, and some line has that many |
| Frames.GetSizeCounts | src/dataframe.cpp:167-196 | from a fresh DataFrame, getSize succeeds iff the file has a line and some line has a cell; nrows is then the line count less one, ncols the largest cell count less one, and the label vectors are sized to match |
| Frames.SetData | src/dataframe.cpp:68-76 | writing a cell succeeds iff it lies inside the grid, and then changes only that row |
| Frames.StoreCell | src/dataframe.cpp:66-72 | storing a cell keeps the shape and every other row |
| Frames.ReadCells | src/dataframe.cpp:58-74 | reading the cells of a line keeps the shape and every other row |
| Frames.ReadLine | src/dataframe.cpp:54-76 | reading a line keeps the shape and every other row |
| Frames.LineEnd | src/dataframe.cpp:75-76 | the final-delimiter test keeps the shape and every other row |
| Frames.ReadLines | src/dataframe.cpp:50-78 | reading the lines keeps the shape and every row the non-empty lines are not read into |
| Frames.ReadCsvFailsEarly | src/dataframe.cpp:34-43 | when getSize fails or the file cannot be reopened, read_csv returns false and leaves the grid, names and lengths as they were |
| Frames.ReadCsvShape | src/dataframe.cpp:33-84 | after a completed read the grid is nrows x ncols, the label vectors match, and max_index_length is at least the index name's length |
| Frames.UnfilledRowsStayZero | src/dataframe.cpp:47-53 | rows past the last non-empty line keep the 0.0 the grid was reset to, because empty lines are counted by getSize but skipped here |
| Frames.HeaderLabels | src/dataframe.cpp:59-62 | once the index name is set, header cells fill columns[col..] in order and raise max_column_length to the longest |
| Frames.HeaderRow | src/dataframe.cpp:59-62 | the first header cell becomes the index name and the following cells fill columns[0..] in order |
| Frames.HeaderNamedIndex | src/dataframe.cpp:60 | a header whose first cell is literally "index" leaves the name "index", so the second cell becomes the index name |
| Frames.DataCells | src/dataframe.cpp:66-72 | the k-th cell goes to data(row, col + k): NaN when empty, its parsed value otherwise; nothing else changes |
| Frames.DataRow | src/dataframe.cpp:63-72 | the first cell of a data row becomes index[row] and the following cells fill that row of the grid in order |
| Frames.DataLine | src/dataframe.cpp:54-77 | a data line fills index[row] and its row of the grid, stores NaN after a final delimiter, and keeps every other row |
| Frames.OpenedLoaded | src/dataframe.cpp:6-9 | every DataFrame the file constructor yields has a valid grid and a label for each column |
| Frames.Elementwise | src/dataframe.cpp:133-160 | the result has the operands' shape and each cell is the operator applied to the two cells |
| Frames.Combine | src/dataframe.cpp:130-164 | an operator fails with invalid_argument exactly when the rows or the columns differ; otherwise the result has the operands' shape and the left operand's labels |
| Frames.CombineChecksShapes | src/dataframe.cpp:130-164 | an operator throws invalid_argument iff rows or columns differ; otherwise the result has that shape, the left operand's labels and the combined cells |
| Frames.SubtractUndoesAdd | src/dataframe.cpp:130-146 | on grids without NaN, (a + b) - b has a's grid and labels |
| Frames.DivideUndoesMultiply | src/dataframe.cpp:148-164 | on grids without NaN or zero divisors, (a * b) / b has a's grid and labels |
| Frames.CombineCommutes | src/dataframe.cpp:130-155 | + and * give the same grid in either operand order |
| Frames.LongestLabel | src/dataframe.cpp:12-20 | the loop computes the longest label length, 0 with no labels |
| Frames.DataFrame.constructor | src/dataframe.cpp:4 | an empty grid, no labels, index name "index" and the header's initial lengths |
| Frames.DataFrame.FromParts | src/dataframe.cpp:10-21 | the grid and labels as given, with max lengths set to the longest label lengths |
| Frames.DataFrame.Open | src/dataframe.cpp:6-9 | the file constructor picks the delimiter from the name (FileFormatError escapes) and runs read_csv, whose errors escape |
| Frames.DataFrame.GetSize | src/dataframe.cpp:167-196 | the new counts and labels are those of getSize's specification, and so is the outcome |
| Frames.DataFrame.TrimCounts | src/dataframe.cpp:187-196 | drops the header line and index column and sizes the labels, or fails when either count is 0 |
| Frames.DataFrame.CountLines | src/dataframe.cpp:176-185 | nrows grows by the line count and ncols becomes the larger of itself and the widest line |
| Frames.DataFrame.CountLine | src/dataframe.cpp:177-184 | one line adds one row and widens ncols to its cell count |
| Frames.DataFrame.ReadCsv | src/dataframe.cpp:33-84 | the new state and the outcome are those of read_csv's specification |
| Frames.DataFrame.ReadLineInto | src/dataframe.cpp:51-77 | reading one line changes the state as its specification says |
| Frames.DataFrame.EndLine | src/dataframe.cpp:75-76 | the final-delimiter test changes the state as its specification says |
| Frames.DataFrame.StoreCells | src/dataframe.cpp:58-74 | the cell loop changes the state as its specification says |
| Frames.DataFrame.StoreCellInto | src/dataframe.cpp:59-72 | one cell is stored as specified, or the error is returned and nothing changes |
| Algorithm.OperationNamesRoundTrip | src/algorithm.cpp:8-17 | each operator is selected by its own name and by no other string |
| Algorithm.ColumnOperate | src/algorithm.cpp:7-19 | a successful result has one entry per row |
| Algorithm.ColumnOperateNames | src/algorithm.cpp:8-18 | invalid_argument("Invalid operation") is thrown iff the name is not one of "add", "subtract", "multiply", "divide" |
| Algorithm.ColumnOperateRows | src/algorithm.cpp:8-15 | with a valid name and columns, entry i is the operator applied to row i of the two columns |
| Algorithm.DSumNaN | src/algorithm.cpp:31-33 | a NaN anywhere makes the sum, and so the mean, NaN |
| Algorithm.Pearson | src/algorithm.cpp:28-38 | the plain Pearson is a number only when neither x nor y holds a NaN |
| Algorithm.PearsonNaN | src/algorithm.cpp:28-38 | the plain Pearson is NaN as soon as x holds a NaN |
| Algorithm.PearsonSymmetric | src/algorithm.cpp:28-38 | the plain Pearson is symmetric in x and y |
| Algorithm.PearsonWithNaN | src/algorithm.cpp:40-73 | the loop's result is the correlation of the sums over the complete indices |
| Algorithm.SelectedSums | src/algorithm.cpp:85-89 | the masked sums of x and y are the loop's sums over the complete indices |
| Algorithm.SquaredSums | src/algorithm.cpp:90-91 | the masked sums of squares are the loop's sums of squares |
| Algorithm.CrossSum | src/algorithm.cpp:92 | the masked cross sum is the loop's sum of products |
| Algorithm.PearsonVectorized | src/algorithm.cpp:75-106 | the masked Pearson is a number only when at least two indices hold a value in both x and y |
| Algorithm.MaskCount | src/algorithm.cpp:79-80 | the number of true mask entries is the loop's count of complete indices |
| Algorithm.VectorSumsAreLoopSums | src/algorithm.cpp:48-92 | the vectorised variant accumulates the same count and sums as the loop variant |
| Algorithm.StatisticsAgree | src/algorithm.cpp:62-99 | with the same sums, the vectorised covariance and variances equal the loop's |
| Algorithm.VariantsAgreeOnStatistics | src/algorithm.cpp:62-99 | on every input both variants give the same count, covariance and variances |
| Algorithm.VariantsAgree | src/algorithm.cpp:40-106 | in exact arithmetic the vectorised and loop variants give the same result |
| Algorithm.LoopSumOverPairs | src/algorithm.cpp:48-56 | the loop's sums and count are those over the list of complete pairs |
| Algorithm.NaNIndicesIgnored | src/algorithm.cpp:49 | indices where either value is NaN do not affect the sums: they are those of the filtered pair list |
| Algorithm.FewPairsGiveNaN | src/algorithm.cpp:58-83 | both variants return NaN when fewer than two indices are complete |
| Algorithm.ZeroVarianceGivesNaN | src/algorithm.cpp:68-103 | both variants return NaN when either filtered variance is exactly 0 |
| Algorithm.ConstantGivesNaN | src/algorithm.cpp:68-103 | a constant x over the complete pairs gives NaN in both variants |
| Algorithm.Iota | src/algorithm.cpp:119 | std::iota fills 0 .. n-1 |
| Algorithm.SortIndices | src/algorithm.cpp:118-120 | the index vector ends as a permutation of 0 .. n-1 ordered by x |
| Algorithm.Insert | src/algorithm.cpp:120 | one insertion step keeps the permutation and extends the sorted prefix |
| Algorithm.Swap | src/algorithm.cpp:120 | exchanging two entries keeps the multiset of indices |
| Algorithm.Rank | src/algorithm.cpp:118-122 | the ranks written into rank_x form a ranking: a permutation of 0 .. n-1 with x(i) < x(j) implying rank(i) < rank(j) |
| Algorithm.RankingFromOrder | src/algorithm.cpp:121-122 | writing position k as the rank of index[k] for a sorted index vector gives a ranking |
| Algorithm.Spearman | src/algorithm.cpp:114-128 | the result is the plain Pearson of a ranking of x and a ranking of y |
| Algorithm.Kendall | src/algorithm.cpp:137-152 | the result is (P - Q) / (n(n-1)/2) over the concordant and discordant pairs i < j |
| Algorithm.CountPairs | src/algorithm.cpp:141-149 | the nested loops count exactly the concordant pairs in P and the discordant pairs in Q |
| Algorithm.KendallRow | src/algorithm.cpp:142-148 | one round of the inner loop adds that round's concordant and discordant pairs |
| Algorithm.KendallStep | src/algorithm.cpp:143-147 | a positive product of differences increments P, a negative one increments Q, and the else-if keeps them exclusive |
| Algorithm.LoopEnd | src/algorithm.cpp:141 | stopping the outer loop at n-1 still visits every pair i < j < n |
| Algorithm.KendallCountsBound | src/algorithm.cpp:141-149 | P + Q is at most n(n-1)/2 |
| Algorithm.TiesCountNeither | src/algorithm.cpp:143-147 | a pair with equal x values or equal y values counts in neither P nor Q |
| Algorithm.KendallSymmetric | src/algorithm.cpp:137-152 | Kendall's tau is symmetric in x and y |
| Algorithm.KendallOpposite | src/algorithm.cpp:137-152 | a strictly increasing x against a strictly decreasing y gives -1 for n >= 2 |
| Algorithm.KendallSameOrder | src/algorithm.cpp:137-152 | inputs that order every pair the same way give +1 for n >= 2 |
| Algorithm.KendallIdentical | src/algorithm.cpp:137-152 | identical inputs with distinct values give +1 for n >= 2 |
| Algorithm.TauExtremes | src/algorithm.cpp:151 | all pairs concordant gives 1 and all pairs discordant gives -1 |
| Stable.CountOrderBound | src/stablepairs.cpp:33 | at most k of the first k samples are ordered a given way |
| Stable.ShareBounds | src/stablepairs.cpp:33 | the mean of a 0/1 comparison is between 0 and 1 |
| Stable.CountOrderPartition | src/stablepairs.cpp:33-37 | every sample is above, below or unordered, and exactly one of these |
| Stable.ComplementShare | src/stablepairs.cpp:36-37 | 1 - ratio is the share of samples below plus the share of ties and NaN rows |
| Stable.CountOrderAll | src/stablepairs.cpp:33 | when every sample is ordered one way, all of them are counted |
| Stable.StablePairs.constructor | src/stablepairs.cpp:6-11 | keeps the options, starts with no pairs, and selects reverse mode exactly when the target path exists |
| Stable.StablePairs.GetPairs | src/stablepairs.cpp:82-88 | runs the reverse scan in reverse mode and the stable scan otherwise; returns its answer, appends its records, leaves the options and mode alone |
| Stable.StablePairs.GetPairsStable | src/stablepairs.cpp:23-43 | loads the expression table (load errors escape, nothing appended) and appends exactly the stable records |
| Stable.StablePairs.GetPairsReverse | src/stablepairs.cpp:51-75 | loads the expression table and then the target table, and appends exactly the reverse records |
| Stable.StablePairs.StableScan | src/stablepairs.cpp:26-40 | false with nothing appended for a table without samples; otherwise true with the records of every pair appended in visiting order |
| Stable.StablePairs.ScanStableRow | src/stablepairs.cpp:32-39 | one round of the outer loop appends the decisions for (i, i+1) .. (i, cols-1) |
| Stable.StablePairs.StableVisit | src/stablepairs.cpp:33-38 | the inner loop's body appends the decision for (i, j) and nothing else |
| Stable.StablePairs.ReverseScan | src/stablepairs.cpp:57-72 | false if either table has no samples, an out-of-range error if the target has too few columns, and otherwise true with the reverse records appended |
| Stable.StablePairs.ScanReverseRows | src/stablepairs.cpp:62-72 | the nested loops append every reverse decision in visiting order |
| Stable.StablePairs.ScanReverseRow | src/stablepairs.cpp:63-71 | one round of the outer loop appends the reverse decisions for row i |
| Stable.StablePairs.ReverseVisit | src/stablepairs.cpp:64-70 | the inner loop's body appends the reverse decision for (i, j) and nothing else |
| Stable.StableRowKeep | src/stablepairs.cpp:32-39 | the decisions of one round are what the loop keeps over that round's pairs |
| Stable.ReverseRowKeep | src/stablepairs.cpp:63-71 | the reverse decisions of one round are what the loop keeps over that round's pairs |
| Stable.StableRecordsBound | src/stablepairs.cpp:31-39 | both scans add at most cols(cols-1)/2 records, one per unordered pair at most |
| Stable.StableRecordsOrdered | src/stablepairs.cpp:31-39 | each stable record comes from its own pair i < j, and the pairs increase lexicographically along the records |
| Stable.ReverseRecordMembers | src/stablepairs.cpp:62-71 | a record is reported in reverse mode exactly when some pair i < j decides it |
| Stable.ReverseRecordsOrdered | src/stablepairs.cpp:62-71 | each reverse record comes from its own pair i < j, and the pairs increase lexicographically along the records |
| Stable.StableRecordMembers | src/stablepairs.cpp:31-39 | a record is reported iff some pair i < j decides it |
| Stable.RecordSource | src/stablepairs.cpp:31-39 | a reported record names the pair it was decided on |
| Stable.RecordReported | src/stablepairs.cpp:31-39 | every pair i < j that decides a record has it reported |
| Stable.StableDirections | src/stablepairs.cpp:33-37 | ratio above the threshold reports (col_i, col_j, ratio, 0); otherwise 1 - ratio above it reports (col_j, col_i, 1 - ratio, 0); nothing is reported iff neither is above; equality is not enough |
| Stable.DominantPairReported | src/stablepairs.cpp:33-35 | when column i is above column j in every sample and the threshold is below 1, (col_i, col_j, 1, 0) is reported |
| Stable.ReverseNeedsBoth | src/stablepairs.cpp:64-69 | forward needs ratio and rev above their thresholds; otherwise reversed needs 1 - ratio and 1 - rev above them; nothing iff neither pair of tests passes |
| Stable.EmptyTablesFail | src/stablepairs.cpp:26-60 | a source without samples fails the stable scan, and either table without samples fails the reverse scan, adding nothing |
| Correlation.Combined | src/corrpairs.cpp:59 | the combined column has one entry per sample, row r being the operator applied to row r of columns i and j |
| Correlation.CorrPairs.constructor | src/corrpairs.cpp:8-10 | the default options (Pearson, subtract, threshold 0.3, output "output.csv", no target) and no pairs |
| Correlation.CorrPairs.WithOptions | src/corrpairs.cpp:17-19 | keeps the given options and starts with no pairs |
| Correlation.CorrPairs.GetPairs | src/corrpairs.cpp:35-47 | loads both tables (load errors escape), then returns the scan's answer and appends its records after the existing ones |
| Correlation.CorrPairs.Scan | src/corrpairs.cpp:38-46 | false with nothing appended when the row counts differ; otherwise true after every target column is scanned |
| Correlation.CorrPairs.ScanTargets | src/corrpairs.cpp:42-45 | appends the records of target column 0, then 1, and so on |
| Correlation.CorrPairs.GetPairsOne | src/corrpairs.cpp:56-65 | appends exactly the kept decisions for every pair i < j in visiting order |
| Correlation.CorrPairs.ScanOneRow | src/corrpairs.cpp:58-63 | one round of the outer loop appends the kept decisions for (i, i+1) .. (i, cols-1) |
| Correlation.CorrPairs.Visit | src/corrpairs.cpp:59-62 | the inner loop's body appends the decision for (i, j) and nothing else |
| Correlation.OneRowKeep | src/corrpairs.cpp:58-63 | the decisions of one round are what the loop keeps over that round's pairs |
| Correlation.KeptExactly | src/corrpairs.cpp:60-62 | a pair is kept iff its correlation is a number at least the threshold, so negative correlations below it are dropped; a kept pair is recorded as (target name, col_i, col_j, corr) |
| Correlation.OneRecordsBound | src/corrpairs.cpp:57-58 | one target column adds at most s(s-1)/2 records |
| Correlation.TargetRecordsBound | src/corrpairs.cpp:42-58 | the whole scan adds at most targetCols * s(s-1)/2 records |
| Correlation.OneOrigins | src/corrpairs.cpp:57-63 | each record of one target column comes from its own pair i < j, the pairs increasing lexicographically |
| Correlation.OneRecordMembers | src/corrpairs.cpp:57-63 | a record is reported for one target column exactly when some pair i < j decides it against that column |
| Correlation.TargetRecordMembers | src/corrpairs.cpp:42-63 | a record is reported for the target columns below k exactly when some target column c < k and pair i < j decide it |
| Correlation.TargetRecordsOrdered | src/corrpairs.cpp:42-63 | each record comes from its own target column and pair i < j, ordered by target column, then i, then j |
| Correlation.RecordShape | src/corrpairs.cpp:57-62 | every record is (target name, col_i, col_j, corr) with i < j and corr the non-NaN correlation of op(col_i, col_j) with the target column, at least the threshold |
| Correlation.MismatchedRowsFail | src/corrpairs.cpp:38-40 | tables with different row counts give false and add no record |

## Left out

- `src/main.cpp`, the command-line parsing and the name-to-enum maps, is not part of this model.
- The file-system and clock helpers of `src/utils.h` are left out: `abspath`,
  `cwd`, `isfile`, `isdir`, `exists`, `makedir`, `touch`, `validFile`,
  `errorExit` and `currentTime`. They are operating-system calls. Where a
  scanner asks `exists`, the answer is a parameter.
- `basename` and `dirname` are left out. They depend on the `HOME` variable and on path separators.
- The output writers `writePairs`, `to_csv` and `operator<<` are left out. They are file output and double formatting.
- **Floating point.**
  - Doubles are exact reals, with NaN but no infinities, so x / 0 is NaN.
  - `sqrt`, `stod` and Eigen's rounding are not modelled.
  - `Algorithm::correlation` is declared in `src/algorithm.h` but not defined in the files modelled, so it is a parameter.
- Utils.Replace requires a non-empty pattern: with an empty one the C++ loop finds it at the same position forever.
- Algorithm.Pearson requires at least one element. Eigen's `mean()` of an empty vector is 0/0, which is not modelled.
- Frames.GetSizeCounts assumes the counters `nrows` and `ncols` start at 0. `src/dataframe.h` does not declare them, and `getSize` increments them (src/dataframe.cpp:177 and 184).
- Integer widths are unbounded. The `int`/`size_t` counts of `getSize`, `count`, `P`, `Q` and the loop indices are not wrapped.
- `read_csv` is modelled only as the file constructor calls it, with `header` and `index` both true.
- The second opening of the file inside `read_csv` is a boolean parameter. The file's content does not change between the two openings.
- The in-class operators of `src/dataframe.h`, which lack the shape test, are not part of this model.
- **Memory management.** Raw-pointer ownership, the leaked `new DataFrame` and the destructors are not part of this model.
- ASCII case mapping: `std::toupper`/`std::tolower` are modelled for 'a'..'z' and 'A'..'Z' only (the "C" locale).
- Utils.StrToUpper and Utils.StrToLower return the mapped string instead of transforming the caller's string in place.
- Algorithm.SortIndices uses an insertion sort for `std::sort` and promises only what `std::sort` promises: a permutation ordered by `<`. The order among ties is unspecified, as in the C++ code.
- Algorithm.Kendall requires |x| <= 1 or |x| <= |y|. The C++ loop reads `y` at every index of `x` without a check, so a shorter `y` is an out-of-range Eigen read whenever there is a pair to visit. The only path that reaches a correlation compares the two tables' row counts first (src/corrpairs.cpp:38), so the two columns always have the same length there.
- Spearman requires NaN-free inputs. `std::sort` with NaN keys is undefined behaviour.
- Parallel partitioning and thresholds scaled by 1000 do not appear in the C++ code, which compares raw doubles in sequence. The model does the same.
- **Stable.StablePairs.constructor: the default constructor `StablePairs()` is not modelled.**
  - `StableOptions` in `src/stablepairs.h` declares neither `target` nor `revRatio`, and the class declares no `reverse` field.
  - The model adds all three, and sets `reverse` to whether the target exists. The C++ code leaves `reverse` uninitialised when the target is missing.
  - Records are 4-tuples, as `src/stablepairs.cpp` pushes them; the header declares a 3-tuple.
- **Reverse-mode target handling.**
  - The `assert(exists(target))` in `getPairsReverse` is not modelled. The scan is only reached in reverse mode.
  - A target table with fewer columns than the source table gives `Err(OutOfRange)` before any pair is scanned. In C++ that is an out-of-range column read.
  - Reverse mode does not compare the row counts of the two tables, because the C++ code does not.
- `CorrPairs::getPairs` returns true when both tables have no samples, as the code does.
- `column_operate` is declared in `src/algorithm.h` with the operator enum but defined with a string. `getPairsOne` passes the enum, and the model converts it with `OperationName`.
- Stable.Share is 0 for a table without samples. Both scans return false on such a table before any share is taken (Stable.EmptyTablesFail), so that 0 never reaches a record.

## Findings

| source | as written | input that shows it | evidently intended | confidence | as-written member | corrected member |
|---|---|---|---|---|---|---|
| src/utils.h:110-111 | when the first and last non-pattern positions coincide, `strip` returns `str.substr(ipos)`, which keeps the trailing pattern characters | `strip(" a ")` returns `"a "` | both ends stripped, `"a"`, as the doc comment at src/utils.h:99-103 says | high; not executed | Utils.Strip (Utils.StripKeepsTrailingBlank) | Utils.StripBothEnds (Utils.StripBothEndsIsRStripOfLStrip) |
