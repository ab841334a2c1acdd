# Heureka statistics extractor: a Dafny model of its core

The component logs in to Heureka's merchant site (Czech `cz` or Slovak
`sk`). For each day of a date range it fetches the shop-statistics page and
writes one CSV row per day. This project models the logic of that pipeline
that does not depend on the network:

- **Configuration names** (`src/configuration.py`). The JSON configuration
  has private keys such as `#password`. Before loading, every `"#` in the
  JSON text is rewritten to `"pswd_`, so the dataclass can declare an
  identifier. The inverse turns a leading `pswd_` back into `#`. The
  required parameters of a configuration dataclass are the fields with
  neither a default nor a default factory, and their names go through that
  inverse.
- **Row extraction** (`src/component.py`, `get_stats_for_date`). The model
  starts from a page that has already been extracted: the labels of the
  table's second header row, and the cell texts of the first body row if
  the table has a body. The country picks the column-label mapping: `cz`
  gets the Czech table and any other country the Slovak one. Every cell has
  the koruna suffix, then the euro suffix, then every `%` removed. The row
  always starts with `eshop_id` and `date`. If the first stripped cell is
  the totals sentinel `Celkem`, the row stays that way. Otherwise the labels
  are zipped with the values, and each value is stored under the column its
  label maps to.
- **The run** (`src/component.py`, `run`). It checks the country, checks the
  login response's status code, names the table (`table_name or eshop_id`),
  and, once the incremental flag is read from `incremental_load` (see
  "Findings"), writes one row per date, in date order.

Strings are sequences of Unicode code points, like Python `str`. The column
labels and currency suffixes are written exactly as they appear in the
code: as mis-decoded UTF-8, for example `NÃ¡vÅ¡tÄ\x9bvy` for "Návštěvy".
The escapes in the Dafny constants spell out those code points.
`str.replace` is modelled as `Text.ReplaceAll`: a left-to-right scan that
replaces non-overlapping occurrences. `str.replace(…, 1)` is
`Text.ReplaceFirst`.

Files: `wrappers.dfy` (Option, Result), `text.dfy` (the string operations
and their lemmas), `configuration.dfy` (module `Configuration`) and
`component.dfy` (module `Component`).

Behaviour that follows the code, not what a reader of the component's
purpose might expect:

- A page whose header row exists but which has no table body gives `None`. The run still hands that `None`
  to the writer. Nothing logs in again and nothing is retried: login is one
  POST, checked once.
- A `Celkem` day is written as a row holding only `eshop_id` and `date`. It
  is not skipped.
- The sentinel test compares the first cell after stripping.
- Stripping is not idempotent (`Component.StripNotIdempotent`). Deleting a
  `%` can join the pieces of a koruna suffix, which a second pass would then
  delete. Idempotence is proved only when no suffix is left after one pass
  (`Component.StripIdempotentWhenNoSuffixLeft`).
- The `"#` rewrite works on the whole JSON text, not on keys only. A string
  value that starts with `#` is rewritten to start with `pswd_` as well
  (`Configuration.PrivateLookingValueRewritten`).
- The start of the date range is not clamped to 365 days.
- The metric column is `conversion_rates`, in both mappings and in the
  writer's fieldnames.

## Model

| member | source | states |
|---|---|---|
| `Configuration.ConvertPrivateValueInv` | src/configuration.py:14-18 | a name starting with `pswd_` becomes `#` followed by the rest of the name; any other name, the empty one included, is returned unchanged |
| `Text.ReplaceAll` | src/configuration.py:11 | `str.replace` with no count: a text in which the pattern does not occur is returned unchanged |
| `Text.Count` | src/configuration.py:11 | the number of non-overlapping occurrences is zero exactly when the pattern does not occur |
| `Text.ReplaceAllLength` | src/component.py:106 | replacing every occurrence changes the length by the length difference of replacement and pattern, once per occurrence |
| `Text.ReplaceFirst` | src/configuration.py:16 | `str.replace(…, 1)`: a text that starts with the pattern becomes the replacement followed by the rest; a text without the pattern is unchanged; otherwise the length changes by one length difference |
| `Configuration.ConvertPrivateValue` | src/configuration.py:10-11 | the rewritten JSON text contains no `"#`, and it is 4 characters longer per `"#` occurrence in the input (occurrences counted left to right, without overlap) |
| `Configuration.PrivateLookingValueRewritten` | src/configuration.py:11 | the rewriting does not look at JSON structure: a string value `"#t` after `: ` is rewritten to `"pswd_t` like a key |
| `Configuration.ConvertIdempotent` | src/configuration.py:11 | rewriting an already rewritten text changes nothing |
| `Configuration.ConvertInvIdempotent` | src/configuration.py:14-18 | applying the inverse twice gives the same name as applying it once |
| `Configuration.PrivateKeyRoundTrip` | src/configuration.py:10-18 | for `t` without `"#`: `"#t` is rewritten to `"pswd_t`, the inverse of `pswd_t` is `#t`, so a private key survives the round trip through its dataclass field name |
| `Configuration.RequiredParameters` | src/configuration.py:35-45 | the result is no longer than the field list, and a name is in it exactly when some field with neither default nor default factory has that inverse-converted name |
| `Configuration.RequiredParametersAppend` | src/configuration.py:41-45 | the result for `a + b` is the result for `a` followed by the result for `b`, so declaration order is kept |
| `Configuration.RequiredParametersSingle` | src/configuration.py:41-45 | one field contributes its inverse-converted name exactly when it has neither default nor default factory |
| `Configuration.ConfigurationRequiredParameters` | src/configuration.py:67-72 | `Configuration` requires `credentials`, `report_settings`, `destination`, in that order, and not `country` |
| `Configuration.CredentialsRequiredParameters` | src/configuration.py:48-51 | `Credentials` requires nothing, because both of its fields have defaults |
| `Component.CheckCountry` | src/component.py:37-44 | succeeds exactly for `cz` and `sk`, gives `Cz` exactly for `cz` and `Sk` exactly for `sk`, and fails with `CountryNotSupported` otherwise |
| `Component.ColumnsMapping` | src/component.py:71-99 | for every country, the selected mapping's values are exactly the eight metric columns, so `eshop_id`, `date` and the empty name are not among them; the Czech visits label is a key exactly for `cz`, the Slovak one exactly for every other country |
| `Component.SkVisitsOnly` | src/component.py:90-99 | the only Slovak label mapped to `visits` is `NÃ¡vÅ¡tevy` |
| `Component.FieldnamesAreIdentityAndMetrics` | src/component.py:59-61 | the writer's fieldnames are `eshop_id`, `date` and the eight metric columns |
| `Component.StripValue` | src/component.py:106-107 | a stripped value contains no `%` and is no longer than the cell text |
| `Component.StripRemovesDecoration` | src/component.py:106-107 | for a text `x` with no `%` and no `Â`: `x` followed by the koruna suffix, by the euro suffix or by `%` strips to `x` |
| `Component.StripPlain` | src/component.py:106 | a text with no `%` and no `Â` (the code point both suffixes start with) is not changed by stripping |
| `Component.SentinelStrips` | src/component.py:106-111 | `Celkem` is not changed by stripping |
| `Component.StripIdempotentWhenNoSuffixLeft` | src/component.py:106 | if no suffix is left in a stripped value, stripping it again changes nothing |
| `Component.StripNotIdempotent` | src/component.py:106 | a concrete cell text that strips to the koruna suffix, which then strips to the empty text |
| `Component.StatsRow` | src/component.py:101-118 | `None` exactly when there is no table body; otherwise a row whose `eshop_id` and `date` are the given shop and date, with every column among the two identity columns and the eight metric columns |
| `Component.ExtractRow` | src/component.py:101-118 | the row-building code returns `None` exactly when there is no table body, and otherwise returns the row `StatsRow` describes |
| `Component.Fill` | src/component.py:114-116 | the zip only adds columns: every starting column stays, and every new one is a value of the mapping |
| `Component.Zip` | src/component.py:114-116 | the zip loop returns the row `Fill` describes after all pairs are visited |
| `Component.FillHasKey` | src/component.py:114-116 | a column not in the starting row is in the result exactly when some visited label maps to it |
| `Component.FillLast` | src/component.py:114-116 | a mapped column holds the value at the last visited position whose label maps to it |
| `Component.FillUntouched` | src/component.py:114-116 | a column that no visited label maps to has the same presence and value as in the starting row |
| `Component.FillValueOrigin` | src/component.py:114-116 | every column added by the zip holds one of the visited cell values |
| `Component.FillPrefix` | src/component.py:114 | the row depends only on the first `k` labels and values |
| `Component.SentinelRow` | src/component.py:111-112 | when the first cell strips to `Celkem`, the row has exactly the keys `eshop_id` and `date` |
| `Component.CelkemRow` | src/component.py:109-112 | a first cell reading `Celkem` gives the identity-only row |
| `Component.RowKeysInFieldnames` | src/component.py:59-118 | every key of a returned row is among the writer's fieldnames (the constant `WriterFieldnames`) |
| `Component.MetricColumn` | src/component.py:114-116 | outside `eshop_id`/`date`: a column is in the row exactly when some label at a position below min(labels, cells) maps to it; it then holds the stripped cell at the last such position |
| `Component.MetricValuesHaveNoPercent` | src/component.py:106-116 | no metric value of a row contains `%` |
| `Component.ExtraLabelsIgnored` | src/component.py:114 | labels beyond the last cell do not change the row |
| `Component.ExtraCellsIgnored` | src/component.py:114 | cells beyond the last label do not change the row |
| `Component.ForeignLabelsDropped` | src/component.py:86-116 | for a country other than `cz` and any header: every metric column of the row comes from a label at a position below min(labels, cells) that the Slovak mapping knows and maps to that column |
| `Component.CzechVisitsIgnoredElsewhere` | src/component.py:71-116 | for a country other than `cz` and any header: the row has `visits` only if the Slovak visits label `NÃ¡vÅ¡tevy` is among the visited labels, and the Czech visits label is a different text |
| `Component.TableName` | src/component.py:53 | an empty configured name falls back to the shop id; a non-empty one is used as given; the name is empty only when both are |
| `Component.WriteRows` | src/component.py:64-66 | one row per date, in date order, each what `get_stats_for_date` returns for that date's page |
| `Component.Preflight` | src/component.py:37-49 | succeeds exactly for a supported country and a 200 login status; an unsupported country is reported before the login status |
| `Component.RunAsWritten` | src/component.py:46-56 | as written, the run never succeeds: it fails at the country or the login, or else at the undeclared `load_type` attribute |
| `Component.Run` | src/component.py:23-68 | succeeds exactly for a supported country and a 200 login status, with file `<table name>.csv`, the configured incremental flag, primary key (`eshop_id`, `date`), the writer's fieldnames, and one row per date in order |
| `Component.WrittenRowsKeyedByDate` | src/component.py:55-66 | written rows for distinct dates carry the same shop and distinct dates, so their primary keys differ |

## Left out

- The HTTP requests: the login POST, the per-date GET and the HTML queries (`find('thead')`, `find('tr')[1]`, `.text`). The model takes their results as inputs: the login status code, the header labels, and the optional first body row. The login URLs and the form data are not modelled.
- ExtractRow: the errors of the HTML queries are not modelled as error results. The header query at src/component.py:101 runs before the body test, so a page without a `thead`, or with fewer than two header rows, raises there; the model's header labels are assumed to exist. A missing first body row and an empty cell list (`values[0]`) are preconditions. The code handles none of these.
- Text.ReplaceAll: defined only for a non-empty pattern. The code only replaces non-empty literal patterns.
- The writer (`ElasticDictWriter`), `create_out_table_definition`, `write_manifest`, and what the writer does with a `None` row. These are output plumbing in a library that is not part of this model. `Run` returns the table definition and the rows handed to the writer.
- `parse_datetime_interval` and `split_dates_to_chunks`: the dates arrive as a sequence of `start_date` strings, one per day.
- `load_from_dict` apart from its rewriting step: `json.dumps` and `dataconf.loads` are foreign serialisation. The framework's `validate_configuration_parameters` and `execute_action` are left out too.
- The entry point and its exit codes (1 for a user error, 2 for anything else).
- Logging (`Login successful`, the no-data warning).

## Findings

| source | as written | input that shows it | evidently intended | confidence | as-written member | corrected member |
|---|---|---|---|---|---|---|
| src/component.py:56 | the incremental flag is read as `self.cfg.destination.load_type.is_incremental()`, but `Destination` declares only `table_name` and `incremental_load` | any supported country with a 200 login response: the attribute lookup raises before the table is defined, so no row is written | read `destination.incremental_load` | high; not executed | `Component.RunAsWritten` | `Component.Run` |
