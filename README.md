# nds-wp-events: the date-format translator, in Dafny

The `nds-wp-events` WordPress plugin adds an "Events" post type. Its admin
meta box has a jQuery UI date picker, and the plugin wants that picker to
show dates the way the server formats them. To do that it translates the
WordPress `date_format` option, a PHP `date()` pattern, into a Datepicker
`dateFormat` pattern (`NDS_WordPress_Events_Admin::php_to_datepicker_format`,
used when the meta box is printed). This project models that translator. It
also models the small handler that registers the plugin's admin columns as
sortable.

## The translator (`datepicker_format.dfy`, module `DatepickerFormat`)

- `PhpMatchingJs` is the plugin's 28-entry `$PHP_matching_JS` table.
  `Missing` stands for "no entry" (the `isset` test). `Image` is what one unescaped
  character contributes: its table image, which may be empty, or the
  character itself.
- `Scan(image, s, escaping)` is a recursive specification of the scanning
  loop for any token image. `DatepickerFormatOf(p) = Scan(Image, p, false)`
  is what the plugin returns. The general lemmas are stated for every
  `image`, so they do not depend on the table's contents.
- `PhpToDatepickerFormat` is the `for` loop of `php_to_datepicker_format`
  as a `while` loop. It
  keeps the same `escaping` flag and the same extra `i := i + 1` after a
  backslash. It reads `$php_format[$i]` through `CharAt`, which gives the
  empty string past the end, as PHP does. It is proved equal to
  `DatepickerFormatOf`.
- An independent second reading cuts the pattern into pieces (`Lex`). A
  piece is a token, an escaped character, or a final backslash with nothing
  after it. `Render` then emits each piece's content, preceded by a quote
  exactly when the piece's "inside a literal run" status differs from its
  predecessor's. `ScanIsRender` proves that the scanner and this reading
  agree. `LexRoundTrip` and `UnlexRoundTrip` prove that cutting into pieces
  loses nothing.

A pattern is a PHP string, which is a sequence of bytes: each `char` in the
model stands for one byte. So an escaped multibyte UTF-8 character has only
its first byte escaped (`ExampleMultibyteEscape`), exactly as in the PHP
function.

The PHP function decides two edge cases, and the model follows it on both:
- A pattern that ends inside an escape run gets no closing quote.
- A final backslash reads one position past the end, which PHP evaluates to
  the empty string (with a warning). The output is then a lone `'` if no run
  was open, and nothing otherwise. The model has no error result for this
  case, because the code has none.

## The sortable columns (`admin_columns.dfy`, module `AdminColumns`)

`events_column_register_sortable` sets three keys of the column map, each to
the plugin's post type plus a suffix, and returns the map.
`EventsColumnRegisterSortable` does the same three assignments. It is proved
equal to `SortableColumns`, which defines the result key by key. The post
type is a parameter; the plugin's own value, `nds_wp_event`
(inc/class-nds-wp-events.php:54), is the constant `PluginPostType`.

## Model

| member | source | states |
|---|---|---|
| `DatepickerFormat.PhpMatchingJs` | inc/admin/class-admin.php:653-687 | the token table: an entry for exactly the 28 listed characters and `Missing` for every other one; its contract is stated by `TableKeySet`, `MappedTokens` and `DroppedIff` |
| `DatepickerFormat.Image` | inc/admin/class-admin.php:715-722 | what an unescaped character contributes: its table image when `isset` finds an entry, the character itself otherwise; its contract is stated by `DroppedIff` and `SingleCharacter` |
| `DatepickerFormat.Scan` | inc/admin/class-admin.php:692-724 | the loop's specification for any token image, with the `escaping` flag as a parameter; its contract is stated by `ScanIsRender` (against the piece-by-piece reading), `NoBackslash`, `ScanAppend` and the run lemmas |
| `DatepickerFormat.DatepickerFormatOf` | inc/admin/class-admin.php:689-726 | the function's return value: the scan of the whole pattern with the table's images, starting with no run open; `PhpToDatepickerFormat` is proved to return it and the examples evaluate it |
| `DatepickerFormat.CharAt` | inc/admin/class-admin.php:697-704 | the read `$php_format[$i]` after the extra increment: at most one character, empty exactly when the index is past the end, and otherwise the character at that index |
| `DatepickerFormat.PhpToDatepickerFormat` | inc/admin/class-admin.php:689-726 | the loop, with its extra increment after a backslash and its past-the-end read, returns exactly the specified translation of the whole pattern |
| `DatepickerFormat.ScanAt` | inc/admin/class-admin.php:694-722 | one loop iteration at index `i`: an ordinary character emits a closing quote if a run is open, then its image, and resumes at `i+1`; a backslash emits an opening quote if none is open, then the byte at `i+1` (empty past the end), and resumes at `i+2` with the run open |
| `DatepickerFormat.TableKeySet` | inc/admin/class-admin.php:653-687 | the table has an entry for exactly the 28 listed characters; neither the backslash nor the quote has one |
| `DatepickerFormat.MappedTokens` | inc/admin/class-admin.php:655-675 | the tokens with a Datepicker counterpart translate as listed: `d`→`dd`, `D`→`D`, `j`→`d`, `l`→`DD`, `z`→`o`, `F`→`MM`, `m`→`mm`, `M`→`M`, `n`→`m`, `Y`→`yy`, `y`→`y` |
| `DatepickerFormat.DroppedIff` | inc/admin/class-admin.php:659-686 | a character contributes the empty string if and only if it is one of `N S w W t L o a A B g G h H i s u`, all of which are table entries mapped to `""` |
| `DatepickerFormat.SingleCharacter` | inc/admin/class-admin.php:715-722 | a lone unescaped character translates to its table entry, and a character without an entry (punctuation, a bare quote) translates to itself |
| `DatepickerFormat.NoBackslash` | inc/admin/class-admin.php:708-723 | without backslashes the output is the in-order concatenation of the characters' images, after one closing quote if a run was open and the input is non-empty |
| `DatepickerFormat.NoBackslashState` | inc/admin/class-admin.php:708-714 | a backslash-free pattern ends no escape, and after a non-empty one the flag is false |
| `DatepickerFormat.ScanAppend` | inc/admin/class-admin.php:692-724 | translating a concatenation is translating the first part and then the second, starting from the flag the first part left (when the first part does not end in a lone backslash) |
| `DatepickerFormat.ScanEscapeAll` | inc/admin/class-admin.php:695-706 | a run of escaped characters emits one opening quote (none if a run was already open), then the characters themselves, unlooked-up, and leaves the run open |
| `DatepickerFormat.EscapedRun` | inc/admin/class-admin.php:695-706 | inside a longer pattern, an escaped run emits its quote and characters and the scan resumes with the flag set |
| `DatepickerFormat.CloseRun` | inc/admin/class-admin.php:710-718 | the first unescaped character after a run emits exactly one closing quote before its image and clears the flag |
| `DatepickerFormat.QuotedRun` | inc/admin/class-admin.php:698-714 | escaped characters followed by an ordinary one become a single quoted literal, then that character's image, with the flag false afterwards |
| `DatepickerFormat.EndsInsideRun` | inc/admin/class-admin.php:692-726 | any complete pattern followed by an escaped run gives the pattern's output, then an opening quote unless a run was already open, then the literals, with no closing quote |
| `DatepickerFormat.TrailingBackslash` | inc/admin/class-admin.php:697-706 | a final backslash adds a lone quote when no run was open and nothing when one was |
| `DatepickerFormat.LexRoundTrip` | inc/admin/class-admin.php:692-707 | cutting a pattern into tokens, escaped characters and a final lone backslash yields well-formed pieces whose text is the pattern |
| `DatepickerFormat.UnlexRoundTrip` | inc/admin/class-admin.php:692-707 | every well-formed list of pieces is what its own text cuts into |
| `DatepickerFormat.RenderThenScan` | inc/admin/class-admin.php:692-724 | rendering a prefix of pieces and then scanning the rest from the prefix's last state equals rendering everything |
| `DatepickerFormat.ScanIsRender` | inc/admin/class-admin.php:692-726 | the scanner's output is the piece-by-piece rendering: each piece's content, after a quote exactly where the literal-run status changes from the previous piece |
| `DatepickerFormat.ExampleIsoDate` | inc/admin/class-admin.php:715-718 | `Y-m-d` translates to `yy-mm-dd` |
| `DatepickerFormat.ExampleEscapedDay` | inc/admin/class-admin.php:695-706 | `\d` translates to `'d`, not to the day token `dd` |
| `DatepickerFormat.ExampleOpenRunAtEnd` | inc/admin/class-admin.php:692-726 | `Y \a` translates to `yy 'a`, with no closing quote |
| `DatepickerFormat.ExampleSharedRun` | inc/admin/class-admin.php:698-714 | `\a\t d` translates to `'at' dd`: the two escaped characters share one run |
| `DatepickerFormat.ExampleMultibyteEscape` | inc/admin/class-admin.php:692-707 | escaping the two UTF-8 bytes of `é` escapes only the first byte, so the run closes between the two bytes |
| `DatepickerFormat.ExampleLoneBackslash` | inc/admin/class-admin.php:697-704 | a pattern that is a single backslash translates to a lone quote |
| `AdminColumns.SortKey` | inc/admin/class-admin.php:346-348 | the right-hand sides of the three assignments: the post type followed by `_category`, `_start_date` or `_end_date`; its contract is stated by `SortableColumns` and `PluginSortKeys` |
| `AdminColumns.SortableColumns` | inc/admin/class-admin.php:344-351 | the result has the input's keys plus the three plugin columns; those map to post type + `_category`, `_start_date` and `_end_date`; every other key keeps its value |
| `AdminColumns.EventsColumnRegisterSortable` | inc/admin/class-admin.php:346-350 | the three assignments return exactly `SortableColumns` of the input |
| `AdminColumns.RegisterIdempotent` | inc/admin/class-admin.php:344-351 | registering the sortable columns twice gives the same map as registering them once |
| `AdminColumns.PluginSortKeys` | inc/admin/class-admin.php:346-348 | with the plugin's post type the three columns sort by `nds_wp_event_category`, `nds_wp_event_start_date` and `nds_wp_event_end_date` |

## Left out

- The PHP warning for the read past the end after a final backslash: it is a diagnostic, and only the empty-string value feeds the result.
- The order of keys in the PHP column array: the model uses an unordered `map`. In PHP, existing keys keep their positions and new keys are appended.
- Column values other than strings: WordPress may pass sortable-column entries whose values are arrays, and the handler copies them unchanged. The model types the map's values as strings, so it cannot represent those inputs. What it proves about the other entries is only that they are kept, which does not depend on their type.
- `$this->plugin_post_type`: it is a parameter of the sortable-column operations rather than a field of an object, since the handler only reads it.
- WordPress hook registration, the singletons and their `get_instance` accessors, post-type and taxonomy registration, and multisite activation: host-framework configuration, with no logic of the plugin's own.
- Meta-box, column, message and widget rendering, and the widget template: HTML output built from `echo`, `__()` and `date()`.
- `save_event`: nonce checks, `$_POST`, `strtotime` and `update_post_meta` are request state and database calls outside the plugin.
- The query customisation (`events_query`, `frontend_listing_query`, `events_filtering`, `events_category_filter_list`): it only configures WordPress query objects.
- The widget's `update` method: its behaviour is PHP's `strip_tags`.
- Rendering dates with PHP's `date()` and parsing them in the Datepicker: both belong to their runtimes. So the model says which Datepicker pattern is produced, not how the picker reads it.
