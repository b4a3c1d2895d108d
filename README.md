# Password batch generator — Dafny model

This project models the generation core of `app_senhas_gui.py`, a desktop tool
that makes batches of 5-symbol passwords and exports them to CSV:

- `Config` (config.dfy): the password length (`LENGTH` = 5), the alphabet
  (`CHARSET` = digits, then `A`–`Z`, then `a`–`z`), the password policy, and
  the facts about them. These facts are: the alphabet has 62 distinct symbols,
  it is the disjoint union of its three classes, and the require-all
  construction yields exactly the passwords that have all three classes.
- `Generator` (generator.dfy): `gerar_senha` as `GerarSenha`, `gerar_lista` as
  `GerarLista`, and the library calls they rest on:
  - `secrets.choice` as `Choice`;
  - the in-place Fisher-Yates `shuffle` as `Shuffle`;
  - `list(set)` as `ListOf`.

  It also holds a witness that every allowed count can be met by distinct
  passwords.
- `CsvExport` (csv_export.dfy): the rows `salvar_csv` writes, a reader that
  turns such a table back into its passwords, and the quoting rule of section 2
  of RFC 4180 applied to those rows.
- `Wrappers` (wrappers.dfy): `Option` and `Result`.

Randomness is modelled as choice. Every draw is an arbitrary element of its pool
(`:|`), and every swap partner of the shuffle is an arbitrary index. So each
postcondition holds for every outcome the random source could produce.

Python's `ValueError` for a bad count becomes
`Failure(InvalidQuantity(qtd))`. It is returned before any draw is made.

The unique loop of `gerar_lista` has no bound in the source. In the model it
takes an attempt bound `maxAttempts`. When that bound is used up, it fails with
`AttemptsExhausted`, so every result the model returns is proved correct.

The non-require-all branch of `gerar_senha` is a generator expression that makes
`LENGTH` draws. The non-unique branch of `gerar_lista` is a list comprehension
that makes `qtd` calls. Each draw is a method call, so each becomes a `for` loop
with the same number of iterations.

The list `partes` grows by `append` and is then shuffled in place. In the model
it grows as a `seq`, is copied into an array of `Length` cells, and `Shuffle`
permutes that array in place.

## Model

| member | source | states |
|---|---|---|
| Config.ClassRanges | app_senhas_gui.py:11 | each of `string.digits`, `ascii_uppercase`, `ascii_lowercase` is exactly the run of characters `'0'..'9'`, `'A'..'Z'`, `'a'..'z'` |
| Config.CharsetIsUnion | app_senhas_gui.py:11 | a character is in `CHARSET` iff it is a digit, an upper-case or a lower-case letter |
| Config.ClassesDisjoint | app_senhas_gui.py:11 | no character belongs to two of the three classes |
| Config.CharsetAt | app_senhas_gui.py:11 | the k-th symbol of `CHARSET` is the (k)-th digit, the (k-10)-th upper-case or the (k-36)-th lower-case letter, by character code |
| Config.CharsetSize | app_senhas_gui.py:10-11 | `CHARSET` has 62 symbols and none occurs twice |
| Config.AssembledMeetsPolicy | app_senhas_gui.py:18-26 | any ordering of one digit, one upper-case, one lower-case and two alphabet symbols is a 5-symbol alphabet string containing all three classes |
| Config.PolicyIsAssembled | app_senhas_gui.py:15 | conversely, every 5-symbol alphabet string with all three classes is such an ordering, so the require-all construction can yield every password the policy allows |
| Config.AssembledIffPolicy | app_senhas_gui.py:15-26 | the require-all construction and the require-all policy describe the same passwords |
| Generator.Choice | app_senhas_gui.py:17-24 | one `secrets.choice` draw returns a member of the pool it is given |
| Generator.Shuffle | app_senhas_gui.py:25 | the in-place shuffle leaves the array a permutation of what it was (same multiset) |
| Generator.GerarSenha | app_senhas_gui.py:14-26 | the password has exactly 5 symbols, all from `CHARSET`, in both branches; with require_all it has a digit, an upper-case and a lower-case letter and is an ordering of one digit, one upper-case, one lower-case and two further draws |
| Generator.ListOf | app_senhas_gui.py:38 | `list(senhas)` holds each member of the set exactly once: same members, same size, no duplicates |
| Generator.GerarLista | app_senhas_gui.py:28-38 | fails with `InvalidQuantity(qtd)` iff `qtd < 1` or `qtd > 10000`; an in-range request without unique always succeeds, and with unique it either succeeds or runs out of attempts; on success it holds exactly `qtd` passwords, each meeting the policy, pairwise distinct when unique is set |
| Generator.Sample | app_senhas_gui.py:35 | builds, for each n < 38440, a 5-symbol alphabet password with all three classes |
| Generator.SampleInjective | app_senhas_gui.py:35 | different indices give different sample passwords |
| Generator.UniqueBatchExists | app_senhas_gui.py:30-37 | for every count in [1, 10000] there are that many distinct passwords meeting the require-all policy, so the unique loop always has enough passwords left to reach its target |
| CsvExport.PasswordNeedsNoQuoting | app_senhas_gui.py:43-46 | a password holds no comma, double quote, CR or LF, so section 2 of RFC 4180 writes it unquoted |
| CsvExport.Column | app_senhas_gui.py:45-46 | the source never reads a CSV: this is the reader that inverts the single-field rows written by the loop, the partner for the round-trip; it succeeds iff every row has exactly one field, and then yields each row's field in order |
| CsvExport.ReadPasswords | app_senhas_gui.py:44-46 | the source never reads a CSV: this is the reader that inverts the header-then-rows layout written here, the partner for the round-trip; a table reads back iff it is the header row `["senha"]` followed by single-field rows, and the passwords are those fields in order |
| CsvExport.SalvarCsvRows | app_senhas_gui.py:40-46 | the rows are `["senha"]` followed by `[s]` for each password in list order, nothing dropped or added; reading them back returns the same list; when the list holds passwords, no field needs quoting |

## Left out

- Generator.GerarLista: the source's unique loop has no attempt cap. The model bounds it by `maxAttempts` and may then fail with `AttemptsExhausted`, an outcome the source does not have. Whether the source's loop terminates depends on probability.
- Generator.GerarSenha: the shuffle is proved to keep the multiset, but not to be uniform over orderings. Nothing is said about the distribution of any draw.
- Generator.Shuffle: the source shuffles the Python list `partes` in place. The model copies the grown list into a fresh array and shuffles that.
- Generator.GerarLista: that duplicates are allowed when unique is false cannot be stated about a single run. The model simply does not forbid them.
- The quality of the random source is not modelled: `secrets` / `SystemRandom`, unpredictability and uniform sampling. Every draw is an arbitrary choice.
- File writing in `salvar_csv` is not modelled: opening the file, the encoding, `csv.writer` and its `\r\n` line terminator. Only the rows are modelled.
- `abrir_pasta_do_arquivo` is left out. It is operating-system shell calls whose failures are swallowed.
- The PySimpleGUI layer is left out: theme probing, layout, windows, the event loop and file dialogs.
- The timestamped default file name is left out, because it reads the clock.
- Parsing the quantity text with `int(str(...).strip())` is left out, because it belongs to the user-interface handler. So is its not-an-integer failure. The model takes the count as an integer.
