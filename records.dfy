/**
 * Spreadsheet rows as the reader's CSV loader yields them: each row maps a
 * column name to a text or numeric cell.
 */
module Records {
  datatype Cell = Str(text: string) | Num(value: real)

  type Row = map<string, Cell>
}
