# Glider metadata tools: a Dafny model

This project models the core logic of three scripts from a set of tools for
Voice of the Ocean (VOTO) glider data. The scripts talk to the VOTO ERDDAP
server, cache downloaded datasets locally, and build statistics and
metadata tables from them. The model keeps their decision logic and data
shaping. It drops the network, file formats and floating-point numerics.

- **`voto_erddap_utils.py`**: the dataset cache and the batch download.
  - The cache hit test `_cached_dataset_exists` and the index update `_update_stats`.
  - The download loop `download_glider_dataset`: `nrt`/`delayed` selection, cache gating, and skipping failed fetches.
  - The dimension cleanup `_clean_dims` and the sort by time.
  - The XML-to-dict conversion `_etree_to_dict`, used on ISO 19115 metadata records.
  - The `rowSize` expansion in `add_profile_time`. It decodes a contiguous ragged array, as in section 9.3.3 of the CF Conventions.
  - The ADCP id derivation and attribute merge of `add_adcp_data`.
- **`ballast_info.py`**: the ballast statistics.
  - `get_glider_dataset_ids` and `select_datasets`, which chain substring filters over dataset ids.
  - The per-mission crossover count over a ballast threshold.
  - The per-dive top/low ballast selection, with alarm and navigation-state exclusions.
  - The integer columns of the mission summary.
- **`metadata_tables.py`**: the metadata tables.
  - The dataset-id filtering.
  - The flattening of a dataset's nested metadata into one row.
  - The variable-attribute row.
  - The users' table: `science_variables`, date truncation, the serial prefix, and the `irradiance` column.

The modules follow the program's structure:

| module | holds |
|---|---|
| `Wrappers` | `Option`, Python's exceptions as an `Error` datatype, and `Result` |
| `Strings` | the Python string operations used: `in`, slicing, `replace`, `zfill`, `split`/`join`, `strip`, `str(int)`, string order |
| `Seqs` | order-preserving selection (`Filter`) and the subsequence relation |
| `Dicts` | Python's insertion-ordered dict as a sequence of pairs |
| `Values` | the JSON-like values of metadata and attributes, with Python's `str()`/`repr()` |
| `Datasets` | datasets, `_clean_dims`, sort by time, the `rowSize` expansion, the ADCP id and attributes |
| `Cache` | the sorted cache index, `_cached_dataset_exists`, `_update_stats` |
| `Download` | `download_glider_dataset` over a server oracle |
| `Etree` | `_etree_to_dict` |
| `Ballast` | `select_datasets` and the ballast statistics |
| `MetadataTables` | the three tables of `metadata_tables.py` |

The server is passed in as parameters:

- a dataset list;
- a request-URL function;
- a fetch outcome (`Fetched(ds)` or `FetchFailed`);
- a remote creation date (`Option<int>`).

The cache is a state value:

- whether the directory exists;
- the stored dataset per id;
- the index file, or `None` when it cannot be read.

Dates are integers.

## Model

| member | source | states |
|---|---|---|
| Cache.CachedDatasetExists | voto_erddap_utils.py:162-204 | Hit exactly when all of these hold: the cache directory existed, the id's file is stored, the index was readable and has a row for the id with the same request, the remote date was obtained, and the stored date is not older than it. The only effect is creating a missing directory. |
| Cache.RequestSensitivity | voto_erddap_utils.py:189-191 | An index row with a different request always misses, whatever the dates are. |
| Cache.StaleMisses | voto_erddap_utils.py:200-202 | A stored date strictly older than the remote date misses. |
| Cache.FailedCheckMisses | voto_erddap_utils.py:194-199 | A remote-date lookup that raised misses. |
| Cache.MissingDirectoryMisses | voto_erddap_utils.py:170-173 | A missing cache directory is created and the answer is a miss. |
| Cache.Upsert | voto_erddap_utils.py:220-225 | Overwriting or appending the row and re-sorting by id keeps the index strictly sorted. The resulting map is the old one with the id set to the new record, and no other row appears. |
| Cache.SortedIndexUnique | voto_erddap_utils.py:225 | Two id-sorted indexes with the same contents are the same rows. So `sort_index` after overwrite-or-append yields exactly the upsert, whatever the order of insertion. |
| Cache.UpdateStats | voto_erddap_utils.py:207-226 | Afterwards the index is readable and sorted. It holds the given request and the stored dataset's own `date_created` for the id. Every other id keeps its row, or has none if the index was unreadable. Files are untouched. |
| Cache.HitAfterUpdate | voto_erddap_utils.py:189-202 | After recording a download, a check with the same request hits exactly when the remote date is not newer than the stored one. A check with any other request misses. |
| Cache.UpdateStatsIdempotent | voto_erddap_utils.py:220-225 | Recording the same download twice is recording it once. |
| Download.SelectIds | voto_erddap_utils.py:275-292 | Raises `ValueError` exactly when both flags are set. Otherwise it keeps exactly the ids containing `nrt` or `delayed`, as the flag asks, in the given order. With neither flag it keeps all ids. |
| Download.Step | voto_erddap_utils.py:303-342 | One loop iteration touches only the entry for its id. That entry is appended or overwritten, and a successful fetch always leaves it present. For an id that goes through the cache, nothing is fetched exactly when the cache check passes, and the entry then holds the stored file. Such an id is collected exactly when it was collected before, the check passes or the fetch succeeds. If something was fetched, it is fetched once and stored as the cleaned, time-sorted dataset, or left alone on failure. Ids that bypass the cache leave it unchanged. |
| Download.DownloadGliderDataset | voto_erddap_utils.py:268-343 | Errors exactly on the flag conflict. The result has unique keys, in the order of the given ids, and every key is of the wanted kind. The index stays sorted. |
| Download.DownloadCollects | voto_erddap_utils.py:298-343 | For a selected id, the returned dict holds it exactly when its fetch succeeds (cleaned and time-sorted, when it bypasses the cache) or, for a cached id, the cache check passes on one of its visits. |
| Download.RunKeyOrder | voto_erddap_utils.py:302-343 | The result keys are the initial keys followed by a selection of the processed ids, in processing order. |
| Download.RunKeysFromIds | voto_erddap_utils.py:302-343 | Every collected key was present before or is a processed id. |
| Download.RunKeepsSuccesses | voto_erddap_utils.py:317-342 | Every processed id whose fetch succeeds is in the result: a failure only skips its own id. |
| Download.RunUncachedIff | voto_erddap_utils.py:330-342 | An id that bypasses the cache is collected if and only if its fetch succeeds. It then holds the cleaned, time-sorted dataset. |
| Download.RunCachedIff | voto_erddap_utils.py:304-329 | An id that goes through the cache is collected if and only if its fetch succeeds or the cache check passes on one of its visits, judged against the cache as it stood at that visit. |
| Download.RunUntouchedKey | voto_erddap_utils.py:302-343 | A key none of the ids names keeps its value. |
| Download.RunCacheFrame | voto_erddap_utils.py:304 | Ids not processed, or processed without the cache (not `delayed`, or caching off), keep their stored file and index row. |
| Download.RunUncachedLeavesCache | voto_erddap_utils.py:330-342 | A run over ids that all bypass the cache leaves the cache exactly as it was and fetches every id once, in order. |
| Download.StepRecorded | voto_erddap_utils.py:304-329 | One iteration keeps the invariant: every cached id in the result is its stored file, and the index records it under the request the server would be asked now. |
| Download.RunRecorded | voto_erddap_utils.py:304-329 | The invariant above holds over a whole run. |
| Download.RunNormalized | voto_erddap_utils.py:322-341 | Over a whole run, every stored file and every collected dataset has no `obs` dimension and is sorted by time. |
| Download.RepeatIsHit | voto_erddap_utils.py:304-329 | Revisiting a cached id whose fetch succeeded, when the remote date is not newer, is a hit that changes nothing. |
| Datasets.CleanDims | voto_erddap_utils.py:23-28 | No `obs` dimension is left. `timeseries` survives exactly when `obs` was absent. `obs`'s length moves to `time`. Without `obs` nothing changes. All other dimensions are kept. |
| Datasets.SortByTime | voto_erddap_utils.py:324 | The observations come out in time order and are a permutation of the input. |
| Datasets.SortByTimeStable | voto_erddap_utils.py:324 | The sort is stable. For every timestamp, the observations taken at it keep their original relative order. |
| Datasets.SortByTimeSorted | voto_erddap_utils.py:324 | Data already in time order is left unchanged. |
| Datasets.Normalize | voto_erddap_utils.py:322-324 | After cleanup and sorting there is no `obs` dimension, the observations are in time order and are the same multiset, and the attributes are unchanged. |
| Datasets.CleanDimsIdempotent | voto_erddap_utils.py:23-28 | Cleaning an already cleaned dataset changes nothing. |
| Datasets.NormalizeIdempotent | voto_erddap_utils.py:322-324 | Normalising an already normalised dataset changes nothing. |
| Datasets.ExpandRowSize | voto_erddap_utils.py:137-145 | The loop's array is the ragged-array decoding, cut or zero-padded to the observation count. |
| Datasets.FlattenLayout | voto_erddap_utils.py:141-145 | The decoding is as long as the row sizes' sum. Observation `k` of profile `i` sits at the sum of the earlier row sizes plus `k`, and carries profile `i`'s number. |
| Datasets.SplitLength | voto_erddap_utils.py:232 | Splitting gives one more piece than there are separators. |
| Datasets.AdcpId | voto_erddap_utils.py:231-233 | `IndexError` exactly when the id has fewer than two underscores. Otherwise the result starts with `adcp_`. |
| Datasets.AdcpIdOfFields | voto_erddap_utils.py:231-233 | For an id of underscore-separated fields, the ADCP id is `adcp_` plus the second and third fields. |
| Datasets.AdcpOnlyAttrs | voto_erddap_utils.py:263 | Exactly the ADCP attributes whose name the dataset lacks, with no duplicate names. |
| Datasets.WithAdcpAttributes | voto_erddap_utils.py:263-264 | `adcp_attributes` holds the repr of those attributes. Every other attribute is unchanged. |
| Etree.ToDict | voto_erddap_utils.py:54-74 | The result is a dict whose only key is the element's tag. |
| Etree.ContentFields | voto_erddap_utils.py:55-71 | An element with children or attributes becomes a dict: its grouped children with the attribute keys assigned over them, plus stripped non-blank text under `#text`. |
| Etree.GroupGet | voto_erddap_utils.py:58-61 | The grouping holds, under each tag, exactly the contents of the children with that tag, in document order. Tags no child has are absent. |
| Etree.ChildrenGrouped | voto_erddap_utils.py:57-63 | A tag used by one child maps to that child's content. A repeated tag maps to the list of contents in document order. Tags no child has are absent. |
| Etree.AttributeKept | voto_erddap_utils.py:64-66 | Every attribute `k="v"` appears as key `@k` with value `v`. |
| Etree.TextKept | voto_erddap_utils.py:67-71 | With children or attributes, and no child tagged `#text`, `#text` holds the stripped text exactly when it is not blank. |
| Etree.LeafIsText | voto_erddap_utils.py:55-73 | An element with no children and no attributes becomes its stripped text, or `None` without text. |
| Etree.NameIsNoKey | voto_erddap_utils.py:65-71 | A tag that is not `#text` and does not start with `@` never collides with `#text` or an `@` key. |
| Strings.Strip | voto_erddap_utils.py:68 | The result is a slice of the input with only whitespace removed around it, and it neither starts nor ends with whitespace. |
| Ballast.GliderDatasetIds | ballast_info.py:9-16 | Exactly the server's ids containing `SEA`, in server order. |
| Ballast.BySerial | ballast_info.py:27-29 | The glider ids, narrowed to those containing `SEA{serial:03}` exactly when the serial is truthy. |
| Ballast.ByMission | ballast_info.py:30-31 | The ids above, narrowed to those containing `M{mission}` exactly when the mission is truthy. |
| Ballast.SelectDatasets | ballast_info.py:19-37 | The chained filters keep exactly the ids passing all of them, in server order. The data-type filter applies only for `nrt` and `delayed`. |
| Ballast.SerialTagPadded | ballast_info.py:28-29 | Worked example, not a general property: serial 57 matches `SEA057` and serial 7 matches `SEA007`. |
| Ballast.SerialTagSpellsSerial | ballast_info.py:28 | For a non-negative serial, the tag is `SEA` then at least three digits spelling the serial. |
| Strings.ZFillKeepsValue | ballast_info.py:28 | Zero-padding a number's digits keeps them digits of the same value. |
| Strings.IntToStringInjective | ballast_info.py:28 | Distinct integers print differently. |
| Ballast.MissionSevenSelectsSeventyFive | ballast_info.py:30-31 | Worked example: the mission is matched as a substring, so mission 7 also selects mission 75. |
| Ballast.Dives | ballast_info.py:82 | The distinct dive numbers of the samples, strictly ascending. |
| Ballast.CountDiveCrossovers | ballast_info.py:85-89 | The inner loop counts the consecutive pairs that go from strictly below the threshold to strictly above it. |
| Ballast.CrossingsCount | ballast_info.py:85-89 | That count is the number of positions `k` with `v[k] < threshold < v[k+1]`. |
| Ballast.NoCrossingWhenNotRising | ballast_info.py:88-89 | Values that never rise give a count of zero. |
| Ballast.CountCrossovers | ballast_info.py:79-89 | The count starts at zero and adds each dive's crossings, over the dives in ascending order. |
| Ballast.CrossoverScope | ballast_info.py:79-89 | For samples in dive order, the mission count is the count over consecutive samples of the same dive. Pairs spanning two dives are never counted. |
| Ballast.DiveRange | ballast_info.py:90-101 | Low is missing exactly when the dive has an alarm. Otherwise low is the dive's minimum. Top is present exactly when there is no alarm and some sample is ascending (navigation state 117). Top is then the highest ascending ballast. |
| Ballast.AscendingTop | ballast_info.py:90-97 | Present exactly when some sample is ascending, and then the maximum over the ascending samples. |
| Ballast.Lowest | ballast_info.py:98-101 | The minimum ballast of the dive. |
| Ballast.TopIffYield | ballast_info.py:90-106 | Some dive's range has a top exactly when some sample is ascending in a dive without alarms. The averaged tops are therefore not all NaN exactly then. |
| Ballast.Ranges | ballast_info.py:83-101 | One range per listed dive, in order, each the range of that dive's samples. |
| Ballast.MissionSummary | ballast_info.py:68-117 | Raises exactly when no sample is an ascending (nav_state 117) sample of an alarm-free dive. This covers a mission without samples, and any mission whose every dive top is NaN, which makes `int(np.nanmean(..))` raise. Otherwise total dives is the largest dive number; max and min ballast are the mission-wide extremes; there is one range per distinct dive, in ascending order; and the crossings and the threshold are recorded. |
| MetadataTables.Drop | metadata_tables.py:34-38 | `KeyError` exactly when the name is absent. Otherwise every row with that name is removed and the order is kept. |
| MetadataTables.TableIds | metadata_tables.py:33-38 | Errors exactly when `allDatasets` or one of the two skipped missions is missing, with `allDatasets` reported first. Otherwise the result is the ids passing all selections, in catalogue order. |
| MetadataTables.TableIdsPipeline | metadata_tables.py:33-38 | The four selections in a row are one selection. |
| MetadataTables.TableIdsMembers | metadata_tables.py:36-38 | The tables cover exactly the ids starting with `nrt`, other than `nrt_SEA057_M75` and `nrt_SEA070_M29`. |
| MetadataTables.Cell | metadata_tables.py:63-69 | A string cell loses exactly its newlines and keeps every other character, in its original order. A list is stored as its repr. Other values are kept. |
| MetadataTables.MetaRow | metadata_tables.py:52-69 | The row's columns are exactly those some assignment writes. Each holds the last value written to it, and no column repeats. |
| MetadataTables.NestedColumn | metadata_tables.py:57-60 | A nested dict's entry `c: u` under key `k` is written to column `k_c`; the outer key is not used. |
| MetadataTables.PlainColumn | metadata_tables.py:61-62 | A plain entry `k: v` of the dict under `key` is written to `key_k`. |
| MetadataTables.ColumnOrigin | metadata_tables.py:57-62 | Every column a dict value writes is of one of those two kinds. |
| MetadataTables.EmptyDictsIgnored | metadata_tables.py:54-56 | Removing empty-dict entries leaves the row unchanged. |
| MetadataTables.FlatMetaRow | metadata_tables.py:63-69 | Metadata without dict values becomes a row with the same keys, in the same order, each holding its value's cell. |
| MetadataTables.FlatRowSingleLine | metadata_tables.py:63-65 | In such a row, no string cell contains a newline. |
| MetadataTables.OuterKeyDropped | metadata_tables.py:57-62 | Worked example: `{'a': {'b': {'c': 1}, 'd': 2}}` gives the columns `b_c` and `a_d`, in that order. |
| MetadataTables.AttrAssignment | metadata_tables.py:88-94 | Since the guard is always true, an attribute is always written as `str(val)` under `name_key`. |
| MetadataTables.VarAttrsRow | metadata_tables.py:84-94 | The row's columns are exactly those written, each holding the last value written, and no column repeats. |
| MetadataTables.AttrColumn | metadata_tables.py:86-90 | Every attribute of every variable has its `name_key` column. |
| MetadataTables.AttrCellOrigin | metadata_tables.py:86-94 | Every written cell is some attribute's `str()` under its `name_key`. |
| MetadataTables.NewlineKept | metadata_tables.py:89-92 | Worked example: a newline in an attribute survives, under the prefixed name, because the newline branch is unreachable. |
| MetadataTables.ScienceVariables | metadata_tables.py:135-143 | `TypeError` exactly when some item is unhashable. Otherwise the result is the items outside the navigation set, in the original order, each occurring as often as in the input. |
| MetadataTables.ScienceVariablesIdempotent | metadata_tables.py:143 | Filtering twice is filtering once. |
| MetadataTables.Head10 | metadata_tables.py:120-121 | `[:10]` keeps a prefix of at most ten characters or items. Other values raise `TypeError`. |
| MetadataTables.IrradianceCell | metadata_tables.py:128-133 | `irradiance` holds `nitrate` if present, else `ad2cp` if present, else `irradiance`. |
| MetadataTables.SerialCell | metadata_tables.py:118 | The serial cell is `SEA0` followed by `str(serial)`. |
| MetadataTables.SerialColumn | metadata_tables.py:118 | Worked example: serial 57 gives `SEA057`. |
| MetadataTables.RowHead | metadata_tables.py:117-121 | Fails exactly when the serial, id or a date key is missing, or a date is neither a string nor a list. Otherwise the serial and id are the stored values, and the dates are their `[:10]`. |
| MetadataTables.RowTail | metadata_tables.py:122-127 | Fails exactly when basin, variables, ctd, oxygen or optics is missing, or the variables are not usable. Otherwise those five are copied, and the science column is the filtered variable list. |
| MetadataTables.UserRowOf | metadata_tables.py:117-143 | Fails exactly when a required key is missing, a date is neither a string nor a list, or `variables` is None, a number or a list with an unhashable item. On success: the serial is prefixed; the dates are their first ten characters or items; id, basin, variables, ctd, oxygen and optics are copied; the science column is the variable list with the navigation variables removed, in order; and `ad2cp`/`nitrate` stay empty while `irradiance` takes the last of the three. |
| MetadataTables.UsersTable | metadata_tables.py:115-143 | Fails exactly when some dataset's row fails. Otherwise there is one row per dataset, in order. |
| Values.UnescapeEscape | metadata_tables.py:67 | A string's repr body reads back as the string. |
| Values.ReprNoNewline | metadata_tables.py:67 | A repr is a single line. |
| Strings.RemoveCharIsFilter | metadata_tables.py:64 | `replace(c, "")` is the selection of the characters other than `c`, in their order. |
| Strings.RemoveCharIdempotent | metadata_tables.py:64 | Removing newlines twice is removing them once. |

## Left out

**Network, storage and concurrency**
- ERDDAP and HTTP access (`init_erddap`, `get_meta`, `to_xarray`, `to_pandas`, `get_download_url`, `requests`) become the server parameters. The dataset list is an input sequence.
- The server answers as a fixed function of the dataset id. An id listed twice in `dataset_ids` therefore gets the same fetch outcome and remote date on both visits, whereas the source asks the server again each time.
- `date_from_iso`, which writes and walks an ISO 19115 record, is only the remote-date oracle.
- NetCDF and CSV files: the cache directory is a map from id to dataset, and the index a sequence of rows.
- The read-modify-write race on the index file: the model is single-threaded.
- Printing, logging, progress bars and plotting.
- Datasets.Dataset: every dataset is assumed to carry `date_created`. For a downloaded delayed-mode dataset without it, `_update_stats` raises `KeyError` (voto_erddap_utils.py:218, called at :329 outside the `try`) and ends the whole batch. By then the file is written and no index row is added. Errors from `sortby("time")` and `to_netcdf` after the fetch (:322-325) are likewise uncaught. None of these aborts is modelled.
- Download.RunKeepsSuccesses: a failure skips only its own id for fetch failures, the only errors the loop catches. The post-fetch aborts listed under `Datasets.Dataset` are not covered.

**Parsing and numerics**
- The `eval` of strings containing `{` in the metadata helpers: arbitrary code evaluation has no meaningful model.
- Date parsing (`pd.to_datetime` and the `[:-6]` time-zone cut): dates are integers.
- Floating-point statistics: `nanmean`, `nanstd`, the integer truncation of the averages, and the profile mean time in `add_profile_time`.
- NaN-aware reductions over ballast positions: ballast values are integers without NaN.

**ADCP handling**
- ADCP download and nearest-neighbour reindexing in `add_adcp_data`. The batch download is modelled with `adcp=False`. Only the id derivation and the attribute merge are modelled.

**Metadata tables**
- The pandas concatenation and merge of the rows (`full_table`) and the CSV column alignment.
- The metadata fetch per dataset: rows take each dataset's metadata dict as input.
- Values other than `None`, integers, strings, lists and dicts (floats, booleans, numpy arrays).
- Values.Repr: escapes backslash, the chosen quote, line feed, carriage return and tab. Python also escapes other control and non-printable characters.
- MetadataTables.VarAttrsRow: takes each data variable's name and attribute dict as input, in `data_vars` order, instead of reading them from the downloaded dataset.
- MetadataTables.UserRowOf: keeps the cells as values; pandas' cell storage and the initial `range` in `deployment_id` are not modelled.
