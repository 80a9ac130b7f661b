# Mullvad WireGuard configuration renamer, modelled in Dafny

`mullvad-renamer.py` renames Mullvad's WireGuard configuration files so that
each name also shows the server's country and city. It works in two stages,
and both are modelled here:

1. `parse_mullvad_servers` reads the rows of Mullvad's server table. Each row
   becomes a dictionary entry `name -> {country, city}`:
   - the server name is the first cell cut at its first `-`;
   - the country is the two-letter code the fuzzy lookup finds, or the raw
     cell text when the lookup raises;
   - the city is the third cell with every `", "` and then every whitespace
     character removed;
   - a later row with the same name overwrites an earlier one.
2. `calculate_renames` goes through the directory listing. For each file:
   - it extracts the server name. This is the text after the first
     `mullvad-`, cut at the next `mullvad-` and then at the first `.conf`;
   - it looks the name up in the dictionary;
   - it plans a new name, with `-{country}_{city}` inserted before the first
     `-` of the file name.

   Files without `mullvad-` go to the `fail` list. A server name missing from
   the dictionary raises an uncaught `KeyError`, and that aborts the whole
   plan.

Modules:

- `Wrappers` (`wrappers.dfy`): `Option` and `Result`.
- `Text` (`text.dfy`): the Python string operations the script relies on,
  over `seq<char>`:
  - `find` (`IndexOf`);
  - `split(sep)` (`Split`) and `split(sep, 1)` (`SplitOnce`);
  - `join` (`Join`);
  - `replace` (`Replace`);
  - `s.split()` with no argument (`Words`) and `''.join` (`Concat`).

  `RemoveWhitespace` is a plain filter of the non-whitespace characters.
  `JoinWords` proves that `''.join(s.split())` equals it.

  `IsWhitespace` lists the code points Python's `str.split()` splits on.
- `ServerTable` (`server_table.dfy`):
  - the per-cell normalisations;
  - the dictionary-building loop, as the method `ParseServers`;
  - its specification `ParseTable`, a left fold over the rows.

  The HTML document is abstracted to its rows, and each row to the texts of
  its `<td>` cells. The country lookup is a parameter.
- `RenamePlan` (`rename_plan.dfy`):
  - the per-file step `PlanFile`;
  - the planning loop, as the method `CalculateRenames`;
  - its specification `PlanRenames`.

  The directory listing is abstracted to a sequence of file names.

Both loops are methods whose loop invariant ties the state so far (the
dictionary, or the two lists) to the specification function applied to the
prefix read so far. The lemmas state what the script promises about those
functions.

The model follows the code, not a more polished description of the tool:

- It does no upper-casing, no transliteration, no shortening of city names,
  adds no `mv-` prefix and has no overwrite handling. The script does none of
  these.
- An unknown server is fatal for the whole plan, not a per-file failure.
- A file that lacks `.conf` is not a failure. Its server name then runs to
  the next `mullvad-`, or to the end of the file name when there is none.
- The `find('-') == -1` branch is kept, as in the script, and
  `DashBeforeServerName` proves that it is never taken.
- A row with fewer than three cells makes the uncaught `IndexError` of
  `tds[i]`. It is modelled as the fatal result `MalformedRow`, carrying the
  index of the first such row.

## Model

| member | source | states |
|---|---|---|
| Text.IndexOf | mullvad-renamer.py:89 | `find` gives -1 exactly when the pattern occurs nowhere. Otherwise it gives an index where the pattern occurs, with no occurrence before it. |
| Text.JoinSplit | mullvad-renamer.py:78 | Joining the pieces of `split(sep)` (`Split`) with `sep` gives the string back. |
| Text.SplitCount | mullvad-renamer.py:78-79 | `split(sep)` has a second piece (so `[1]` raises no `IndexError`) exactly when `sep` occurs. |
| Text.SplitHead | mullvad-renamer.py:56 | The first piece of `split(sep)` equals that of `split(sep, 1)` (`SplitOnce`). It is a prefix of the string, free of `sep`, and either the whole string or followed by `sep`. |
| Text.SplitPiecesFree | mullvad-renamer.py:78 | No piece of `split(sep)` contains `sep`. |
| Text.ReplaceAbsent | mullvad-renamer.py:58 | `replace` (`Replace`) leaves a string without the pattern unchanged. |
| Text.RemoveWhitespace | mullvad-renamer.py:59 | The filter of the non-whitespace characters has no whitespace and is no longer than the input. It is the input itself when the input has no whitespace. |
| Text.Words | mullvad-renamer.py:59 | Every word that `s.split()` yields is non-empty and free of whitespace. |
| Text.JoinWords | mullvad-renamer.py:59 | `''.join(s.split())` is the non-whitespace characters of `s`, in order. |
| ServerTable.ServerNameSpec | mullvad-renamer.py:56 | The server name (`ServerName`, `split('-', 1)[0]`) is a prefix of the cell without `-`. It is the whole cell or is followed by the cell's first `-`, and it is the whole cell when the cell has no `-`. |
| ServerTable.ServerNameIdempotent | mullvad-renamer.py:56 | Cutting a server name at its first `-` a second time changes nothing. |
| ServerTable.NormaliseCity | mullvad-renamer.py:58-59 | The normalised city has no whitespace and is never longer than the cell. |
| ServerTable.CityIsFilter | mullvad-renamer.py:58-59 | The normalised city is exactly the cell's characters that are neither whitespace nor the comma of a `", "`, in their order in the cell. |
| ServerTable.CityFilterFrom | mullvad-renamer.py:58-59 | Removing `", "` from a suffix of the cell, and then its whitespace, keeps exactly the characters of that suffix that the filter keeps. |
| ServerTable.CityByRemoval | mullvad-renamer.py:58-59 | The city is `replace(', ', '')` followed by dropping every whitespace character. |
| ServerTable.CityHasNoCommaSpace | mullvad-renamer.py:58-59 | A normalised city holds no `", "`. This follows from its having no whitespace; `CityIsFilter` is what shows that `", "` is removed. |
| ServerTable.CityExample | mullvad-renamer.py:58-59 | The cell `"a, b"` normalises to `"ab"`. |
| Text.ReplaceShrinks | mullvad-renamer.py:58 | `replace` with a replacement no longer than the pattern never lengthens a string. |
| Text.RemoveCommaSpaceCounts | mullvad-renamer.py:58 | Removing `", "` keeps the number of occurrences of every character other than `,` and space. |
| Text.RemoveWhitespaceCounts | mullvad-renamer.py:59 | Removing whitespace keeps the number of occurrences of every other character. |
| ServerTable.CityKeepsOtherCharacters | mullvad-renamer.py:58-59 | City normalisation keeps every character that is neither whitespace nor `,`, each as often as in the cell. |
| ServerTable.CityFixedPoint | mullvad-renamer.py:58-59 | Normalisation leaves a city cell unchanged exactly when the cell has no whitespace. |
| ServerTable.CityIdempotent | mullvad-renamer.py:58-59 | Normalising a city twice is normalising it once. |
| ServerTable.ParseServers | mullvad-renamer.py:53-69 | The loop returns the dictionary that folding the rows into an empty map gives (`ParseTable`), or the error of the first malformed row. |
| ServerTable.ParseTableError | mullvad-renamer.py:54-58 | Parsing (`ParseTable`) fails exactly when some row has fewer than three cells, and then it names the first such row. |
| ServerTable.ParseErrorPersists | mullvad-renamer.py:54-55 | Once a prefix of the rows fails, reading more rows keeps the same error. |
| ServerTable.ParseTableKeys | mullvad-renamer.py:53-67 | On well-formed rows, the dictionary's keys are exactly the normalised server names of the rows. |
| ServerTable.ParseTableLastRowWins | mullvad-renamer.py:56-67 | The entry for a name comes from the last row carrying it. Its city is that row's normalised city. Its country (`CountryCode`) is the lookup's code, or the raw country text when the lookup fails. |
| ServerTable.ParseTableConcat | mullvad-renamer.py:54-67 | The dictionary of two tables read in turn is the first table's dictionary overridden by the second's. |
| ServerTable.EarlierRowsCannotOverride | mullvad-renamer.py:67 | Rows read earlier cannot change the final entry of a name that a later block of rows carries. |
| RenamePlan.InsertAt | mullvad-renamer.py:95 | `s[:i] + t + s[i:]` is longer by `len(t)` and holds `t` at `i`. Removing `t` gives `s` back. |
| RenamePlan.ExtractServerNameSpec | mullvad-renamer.py:77-82 | Extraction (`ExtractServerName`) fails exactly when the file name lacks `mullvad-`. Otherwise the name is the text right after the first `mullvad-`. It contains neither `mullvad-` nor `.conf`, and it ends at the end of the file name or where a `.conf` or a further `mullvad-` begins. |
| RenamePlan.DashBeforeServerName | mullvad-renamer.py:89-93 | After a successful extraction, `file.find('-')` lies between 0 and the index of the first `mullvad-` plus 7, so the second failure branch is never taken. |
| RenamePlan.PlanFileOutcome | mullvad-renamer.py:77-96 | For the loop body (`PlanFile`), a file fails exactly when it lacks `mullvad-`. It raises the fatal error exactly when its extracted name is not a key, and the error carries that name. A planned rename keeps the file as its old name. |
| RenamePlan.RenamedAtFirstDash | mullvad-renamer.py:89-95 | The insertion point is the first `-` of the file name. |
| RenamePlan.RenamedInsertion | mullvad-renamer.py:84-95 | The new name is longer by `2 + len(country) + len(city)`. It holds the inserted text `-{country}_{city}` (`InsertText`) at the first `-`, and deleting that text gives the old name. |
| RenamePlan.RenamedKeepsServerName | mullvad-renamer.py:78-95 | The server name appears intact in the new name, at its old index moved right by the length of the inserted text. |
| RenamePlan.CalculateRenames | mullvad-renamer.py:71-98 | The loop returns the `success` and `fail` lists that the fold over the listing (`PlanRenames`) gives, or the `KeyError` of the first unknown server. |
| RenamePlan.PlanErrorPersists | mullvad-renamer.py:84 | Once a prefix of the listing raises, the whole plan raises the same error. |
| RenamePlan.PlanRenamesError | mullvad-renamer.py:76-84 | The plan succeeds exactly when every file either lacks `mullvad-` or has an extracted server name that is a key (`AllKnown`). On failure, the error is the server name of the first such file, and that name is not a key. |
| RenamePlan.PlanRenamesPartition | mullvad-renamer.py:76-98 | `fail` is exactly the files without `mullvad-`, and the old names in `success` are exactly the others. Both keep listing order, and each rename is the one planned for its file. |
| RenamePlan.MarkedPartition | mullvad-renamer.py:76-82 | The files with and without `mullvad-` together are the listing, each file once. |
| RenamePlan.PlanRenamesCounts | mullvad-renamer.py:72-98 | When every server is known, the plan succeeds. `len(success) + len(fail)` is the number of files, and every file appears exactly once across the two lists. |

## Left out

- Reading and parsing the HTML file with BeautifulSoup, and selecting the table, its `tbody` and its rows (mullvad-renamer.py:48-51, 55). These are library calls on a file. The model starts from the rows' cell texts. A missing table is not modelled.
- `pycountry.countries.search_fuzzy` (mullvad-renamer.py:62) is a foreign fuzzy matcher. It is the parameter `lookup`, with `None` standing for the caught `IndexError` or `LookupError`.
- `listdir` and `isfile` (mullvad-renamer.py:75) are filesystem calls. The listing is a given sequence of names, already restricted to regular files.
- `rename_files` and `os.rename` (mullvad-renamer.py:100-105) are filesystem I/O.
- `main` (mullvad-renamer.py:11-45), with its prompts, `exit()` and all printing, including the messages at lines 64, 80 and 91.
- `get_text()` of a cell is taken to be the cell's text as given; HTML entity decoding is not modelled.
