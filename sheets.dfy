/**
 * The user-profile worksheet and the upsert rule of `update_user_to_gsheet`
 * (frontend2.py:46-69). The worksheet is a header row followed by data rows;
 * `rows` holds the data rows, so data row `i` sits at sheet row `i + 2`
 * (one for the header, one for 1-based numbering).
 */
module Sheets {
  import opened Wrappers

  /** The five columns A..E of the user sheet: username, gmail, skills, education, interests. */
  datatype UserRow = UserRow(username: string, gmail: string, skills: string, education: string, interests: string)

  /** The sheet row number of data row `i`. */
  function RowAddress(i: nat): nat
  {
    i + 2
  }

  /** `[row['username'] for row in records]`. */
  function Usernames(records: seq<UserRow>): seq<string>
  {
    seq(|records|, k requires 0 <= k < |records| => records[k].username)
  }

  /** Python's `names.index(u)`: the position of the first occurrence. */
  function IndexOf(names: seq<string>, u: string): (i: nat)
    requires u in names
    ensures i < |names| && names[i] == u
    ensures forall j :: 0 <= j < i ==> names[j] != u
  {
    if names[0] == u then 0 else 1 + IndexOf(names[1..], u)
  }

  /**
   * The data rows after upserting `row`: the first row with the same
   * username is overwritten, or the row is appended when there is none.
   */
  function Upsert(rows: seq<UserRow>, row: UserRow): (r: seq<UserRow>)
    ensures |r| == |rows| || r == rows + [row]
    ensures forall k :: 0 <= k < |r| && r[k] != row ==> k < |rows| && r[k] == rows[k]
  {
    var names := Usernames(rows);
    if row.username in names then rows[IndexOf(names, row.username) := row] else rows + [row]
  }

  /** A username present in the sheet: its first row is replaced, the row count and every other row are kept. */
  lemma UpsertPresent(rows: seq<UserRow>, row: UserRow, i: nat)
    requires i < |rows| && rows[i].username == row.username
    requires forall j :: 0 <= j < i ==> rows[j].username != row.username
    ensures |Upsert(rows, row)| == |rows|
    ensures Upsert(rows, row)[i] == row
    ensures forall j :: 0 <= j < |rows| && j != i ==> Upsert(rows, row)[j] == rows[j]
  {
    var names := Usernames(rows);
    assert names[i] == row.username;
    IndexUnique(names, row.username, i);
  }

  /** A username absent from the sheet: exactly one row is appended and the others are kept. */
  lemma UpsertAbsent(rows: seq<UserRow>, row: UserRow)
    requires forall j :: 0 <= j < |rows| ==> rows[j].username != row.username
    ensures Upsert(rows, row) == rows + [row]
  {
  }

  /** The first occurrence is unique: any position with the first-occurrence property is `IndexOf`'s. */
  lemma IndexUnique(names: seq<string>, u: string, i: nat)
    requires i < |names| && names[i] == u
    requires forall j :: 0 <= j < i ==> names[j] != u
    ensures IndexOf(names, u) == i
  {
  }

  /** The row count grows by one exactly when the username was not yet in the sheet. */
  lemma UpsertSize(rows: seq<UserRow>, row: UserRow)
    ensures |Upsert(rows, row)| == if row.username in Usernames(rows) then |rows| else |rows| + 1
    ensures row in Upsert(rows, row)
  {
    var names := Usernames(rows);
    if row.username in names {
      var i := IndexOf(names, row.username);
      assert Upsert(rows, row)[i] == row;
    } else {
      assert Upsert(rows, row)[|rows|] == row;
    }
  }

  /**
   * Upserting the same username twice writes the same sheet row: the second
   * call overwrites what the first wrote and creates no second row.
   */
  lemma {:induction false} UpsertTwice(rows: seq<UserRow>, first: UserRow, second: UserRow)
    requires first.username == second.username
    ensures Upsert(Upsert(rows, first), second) == Upsert(rows, second)
  {
    var u := first.username;
    var names := Usernames(rows);
    var once := Upsert(rows, first);
    var names1 := Usernames(once);
    if u in names {
      var i := IndexOf(names, u);
      assert once == rows[i := first];
      assert names1[i] == u;
      forall j | 0 <= j < i ensures names1[j] != u {
        assert names1[j] == rows[j].username == names[j];
      }
      IndexUnique(names1, u, i);
      assert u in names1;
      assert Upsert(once, second) == once[i := second];
    } else {
      assert once == rows + [first];
      var n := |rows|;
      assert names1[n] == u;
      forall j | 0 <= j < n ensures names1[j] != u {
        assert names1[j] == rows[j].username == names[j];
      }
      IndexUnique(names1, u, n);
      assert Upsert(once, second) == once[n := second];
      assert once[n := second] == rows + [second];
    }
  }

  /** The remote user worksheet, reduced to its data rows. */
  class Worksheet {
    var rows: seq<UserRow>

    constructor (rows: seq<UserRow>)
      ensures this.rows == rows
    {
      this.rows := rows;
    }

    /** `sheet.get_all_records()`: every data row, in order. */
    method GetAllRecords() returns (records: seq<UserRow>)
      ensures records == rows
    {
      records := rows;
    }

    /** `sheet.update(f"A{a}:E{a}", [row])` for an existing data row. */
    method Update(address: nat, row: UserRow)
      requires 2 <= address < |rows| + 2
      modifies this
      ensures rows == old(rows)[address - 2 := row]
    {
      rows := rows[address - 2 := row];
    }

    /** `sheet.append_row(row)`. */
    method AppendRow(row: UserRow)
      modifies this
      ensures rows == old(rows) + [row]
    {
      rows := rows + [row];
    }
  }

  /**
   * `update_user_to_gsheet`: connect, read all rows, then overwrite the first
   * row of this username or append a new one. The connection and the remote
   * calls may fail; the result says whether the upsert happened, and on
   * failure the sheet is unchanged.
   */
  method UpdateUserToGsheet(sheet: Worksheet, username: string, gmail: string, skills: string, education: string, interests: string)
    returns (ok: bool)
    modifies sheet
    ensures ok ==> sheet.rows == Upsert(old(sheet.rows), UserRow(username, gmail, skills, education, interests))
    ensures !ok ==> sheet.rows == old(sheet.rows)
  {
    var connected: bool := *;
    if !connected {
      return false;
    }
    var records := sheet.GetAllRecords();
    var usernames := Usernames(records);
    var userData := UserRow(username, gmail, skills, education, interests);
    if username in usernames {
      var idx := RowAddress(IndexOf(usernames, username));
      sheet.Update(idx, userData);
    } else {
      sheet.AppendRow(userData);
    }
    return true;
  }
}
