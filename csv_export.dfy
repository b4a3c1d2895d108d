/** The CSV export (`salvar_csv`): the table of rows it writes, a reader that
    takes such a table back to its passwords, and the record-layout fact that
    makes the rows safe to write without quoting. */
module CsvExport {
  import opened Config
  import opened Wrappers

  /** The single header cell of the exported table. */
  const Header: string := "senha"

  /** Section 2 of RFC 4180: a field that holds a comma, a double quote, a
      carriage return or a line feed must be enclosed in double quotes. */
  predicate NeedsQuoting(field: string)
  {
    exists i | 0 <= i < |field| :: field[i] in {',', '"', '\r', '\n'}
  }

  /** A password is written as it is: none of its symbols forces quoting. */
  lemma {:induction false} PasswordNeedsNoQuoting(p: string)
    requires IsPassword(p)
    ensures !NeedsQuoting(p)
  {
    forall i | 0 <= i < |p| ensures p[i] !in {',', '"', '\r', '\n'} {
      CharsetIsUnion(p[i]);
      ClassRanges(p[i]);
    }
  }

  /** Reading the body of a one-column table: the field of each row, or None
      when some row does not have exactly one field. */
  function Column(rows: seq<seq<string>>): (r: Option<seq<string>>)
    ensures r.Some? <==> forall i | 0 <= i < |rows| :: |rows[i]| == 1
    ensures r.Some? ==> |r.value| == |rows| && forall i | 0 <= i < |rows| :: rows[i] == [r.value[i]]
  {
    if rows == [] then Some([])
    else if |rows[0]| != 1 then None
    else match Column(rows[1..])
      case None => None
      case Some(rest) => Some([rows[0][0]] + rest)
  }

  /** Reading an exported table back: the header row first, then one password
      per single-field row. Any other layout is refused. */
  function ReadPasswords(rows: seq<seq<string>>): (r: Option<seq<string>>)
    ensures r.Some? <==>
      |rows| >= 1 && rows[0] == [Header] && forall i | 1 <= i < |rows| :: |rows[i]| == 1
    ensures r.Some? ==>
      |r.value| == |rows| - 1 && forall i | 0 <= i < |r.value| :: rows[i + 1] == [r.value[i]]
  {
    if rows == [] || rows[0] != [Header] then None
    else
      var body := rows[1..];
      assert forall i | 1 <= i < |rows| :: rows[i] == body[i - 1];
      Column(body)
  }

  /** `salvar_csv`, without the file: the header row, then one single-field row
      per password in list order. Reading the table back gives the passwords
      again, and when they are passwords no field needs quoting. */
  method SalvarCsvRows(senhas: seq<string>) returns (rows: seq<seq<string>>)
    ensures |rows| == |senhas| + 1
    ensures rows[0] == [Header]
    ensures forall i | 0 <= i < |senhas| :: rows[i + 1] == [senhas[i]]
    ensures ReadPasswords(rows) == Some(senhas)
    ensures (forall i | 0 <= i < |senhas| :: IsPassword(senhas[i])) ==>
      forall i, j | 0 <= i < |rows| && 0 <= j < |rows[i]| :: !NeedsQuoting(rows[i][j])
  {
    rows := [[Header]];
    for k := 0 to |senhas|
      invariant |rows| == k + 1
      invariant rows[0] == [Header]
      invariant forall i | 0 <= i < k :: rows[i + 1] == [senhas[i]]
    {
      rows := rows + [[senhas[k]]];
    }
    assert forall i | 1 <= i < |rows| :: rows[i] == [senhas[i - 1]];
    var back := ReadPasswords(rows);
    assert back.Some?;
    assert back.value == senhas;
    if forall i | 0 <= i < |senhas| :: IsPassword(senhas[i]) {
      assert !NeedsQuoting(Header);
      forall i, j | 0 <= i < |rows| && 0 <= j < |rows[i]| ensures !NeedsQuoting(rows[i][j]) {
        if i > 0 {
          PasswordNeedsNoQuoting(senhas[i - 1]);
        }
      }
    }
  }
}
