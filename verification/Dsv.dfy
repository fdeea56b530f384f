/** The lines of the VMware helper: fields escaped and joined with colons
    (agents/vmware/fence_vmware_helper.pl), and split again (agents/vmware/fence_vmware.py). */
module Dsv {
  import opened Ascii
  import opened Wrappers

  function EscapeChar(c: char): string {
    if c in {':', '\\'} then ['\\', c] else [c]
  }

  /** convert_field_to_dsv. */
  function Escape(field: string): string {
    if field == "" then "" else EscapeChar(field[0]) + Escape(field[1..])
  }

  function Join(fields: seq<string>): string {
    if fields == [] then ""
    else if |fields| == 1 then Escape(fields[0])
    else Escape(fields[0]) + ":" + Join(fields[1..])
  }

  /** The fields read so far, the beginning of the current one, and whether a backslash has
      just been read. */
  datatype Reader = Reader(done: seq<string>, field: string, escaped: bool)

  function Step(r: Reader, x: char): Reader {
    if r.escaped then Reader(r.done, r.field + (if x in {':', '\\'} then [x] else ['\\', x]), false)
    else if x == ':' then Reader(r.done + [r.field], "", false)
    else if x == '\\' then Reader(r.done, r.field, true)
    else Reader(r.done, r.field + [x], false)
  }

  function Read(r: Reader, s: string): Reader
    decreases |s|
  {
    if s == "" then r else Read(Step(r, s[0]), s[1..])
  }

  function Finish(r: Reader): seq<string> {
    if r.field == "" then r.done else r.done + [r.field]
  }

  function Split(line: string): seq<string> {
    Finish(Read(Reader([], "", false), line))
  }

  lemma {:induction false} ReadConcat(r: Reader, a: string, b: string)
    ensures Read(r, a + b) == Read(Read(r, a), b)
    decreases |a|
  {
    if a == "" {
      assert a + b == b;
    } else {
      ReadConcat(Step(r, a[0]), a[1..], b);
      assert (a + b)[1..] == a[1..] + b;
    }
  }

  lemma ReadChar(r: Reader, x: char)
    ensures Read(r, [x]) == Step(r, x)
  {
    assert [x][1..] == "";
  }

  /** dsv_split. */
  method DsvSplit(line: string) returns (res: seq<string>)
    ensures res == Split(line)
  {
    res := [];
    var escaped, field := false, "";
    for i := 0 to |line|
      invariant Reader(res, field, escaped) == Read(Reader([], "", false), line[..i])
    {
      var x := line[i];
      assert line[..i+1] == line[..i] + [x];
      ReadConcat(Reader([], "", false), line[..i], [x]);
      ReadChar(Reader(res, field, escaped), x);
      if !escaped {
        if x == ':' {
          res := res + [field];
          field := "";
        } else if x == '\\' {
          escaped := true;
        } else {
          field := field + [x];
        }
      } else {
        if x == ':' {
          field := field + [':'];
        } else if x == '\\' {
          field := field + ['\\'];
        } else {
          field := field + ['\\', x];
        }
        escaped := false;
      }
    }
    assert line[..|line|] == line;
    if field != "" { res := res + [field]; }
  }

  /** A backslash before any other character is kept, and one at the very end is lost. */
  lemma OtherEscapes(r: Reader, x: char)
    requires !r.escaped
    ensures x !in {':', '\\'} ==> Read(r, ['\\', x]) == r.(field := r.field + ['\\', x])
    ensures Finish(Read(r, ['\\'])) == Finish(r)
  {
    ReadConcat(r, ['\\'], [x]);
    assert ['\\'] + [x] == ['\\', x];
    ReadChar(r, '\\');
    ReadChar(r.(escaped := true), x);
  }

  /** What a line looks like. */
  lemma LineLooksLike(a: char, b: char)
    requires a !in {':', '\\'} && b !in {':', '\\'}
    ensures Join([[a, ':', b], "", [a, '\\']]) == [a, '\\', ':', b] + "::" + [a, '\\', '\\']
  {
    assert [a, ':', b][1..] == [':', b] && [':', b][1..] == [b] && [b][1..] == "";
    assert [a, '\\'][1..] == ['\\'] && ['\\'][1..] == "";
    assert Escape([b]) == [b] && Escape([':', b]) == ['\\', ':'] + [b] && Escape([a, ':', b]) == [a] + ['\\', ':', b];
    assert Escape(['\\']) == ['\\', '\\'] && Escape([a, '\\']) == [a] + ['\\', '\\'];
    var fields := [[a, ':', b], "", [a, '\\']];
    assert fields[1..] == ["", [a, '\\']] && fields[1..][1..] == [[a, '\\']];
    assert Join(fields[1..]) == "" + ":" + [a, '\\', '\\'];
  }

  /** An escaped field is read as the field. */
  lemma {:induction false} EscapedFieldIsRead(r: Reader, field: string)
    requires !r.escaped
    ensures Read(r, Escape(field)) == r.(field := r.field + field)
    decreases |field|
  {
    if field == "" {
      assert r.field + field == r.field;
    } else {
      var c, rest := field[0], field[1..];
      var r' := r.(field := r.field + [c]);
      EscapedCharIsRead(r, c);
      ReadConcat(r, EscapeChar(c), Escape(rest));
      EscapedFieldIsRead(r', rest);
      assert r.field + [c] + rest == r.field + field;
    }
  }

  lemma EscapedCharIsRead(r: Reader, c: char)
    requires !r.escaped
    ensures Read(r, EscapeChar(c)) == r.(field := r.field + [c])
  {
    if c in {':', '\\'} {
      ReadConcat(r, ['\\'], [c]);
      assert ['\\'] + [c] == ['\\', c];
      ReadChar(r, '\\');
      ReadChar(r.(escaped := true), c);
    } else {
      ReadChar(r, c);
    }
  }

  /** What splitting gives back of a list of fields: an empty last one is lost. */
  function Kept(fields: seq<string>): seq<string> {
    if fields != [] && fields[|fields|-1] == "" then fields[..|fields|-1] else fields
  }

  lemma FieldIsRead(done: seq<string>, field: string)
    ensures Read(Reader(done, "", false), Escape(field) + ":") == Reader(done + [field], "", false)
  {
    EscapedFieldIsRead(Reader(done, "", false), field);
    assert "" + field == field;
    ReadConcat(Reader(done, "", false), Escape(field), ":");
    ReadChar(Reader(done, field, false), ':');
  }

  lemma {:induction false} JoinIsRead(done: seq<string>, fields: seq<string>)
    requires fields != []
    ensures Read(Reader(done, "", false), Join(fields))
         == Reader(done + fields[..|fields|-1], fields[|fields|-1], false)
    decreases |fields|
  {
    var f, rest := fields[0], fields[1..];
    if rest == [] {
      EscapedFieldIsRead(Reader(done, "", false), f);
      assert "" + f == f && done + fields[..0] == done;
    } else {
      FieldIsRead(done, f);
      ReadConcat(Reader(done, "", false), Escape(f) + ":", Join(rest));
      JoinIsRead(done + [f], rest);
      assert done + [f] + rest[..|rest|-1] == done + fields[..|fields|-1];
    }
  }

  /** Splitting a joined list, for every list of fields: only an empty last field is lost. */
  lemma SplitJoin(fields: seq<string>)
    ensures Split(Join(fields)) == Kept(fields)
  {
    if fields != [] {
      JoinIsRead([], fields);
      assert [] + fields[..|fields|-1] == fields[..|fields|-1];
    }
  }

  /** Splitting inverts joining exactly on the lists whose last field is not empty. */
  lemma RoundTrip(fields: seq<string>)
    ensures Split(Join(fields)) == fields <==> fields == [] || fields[|fields|-1] != ""
  {
    SplitJoin(fields);
  }

  // ------------------------------------------------------------------ virtual machines

  datatype Machine = Machine(name: string, path: string, power: string, connection: string)

  /** A line of the helper's output. */
  function Line(m: Machine): string {
    Join([m.name, m.path, m.power, m.connection])
  }

  /** The machine is listed exactly when it has a connection state, and then as it is. */
  lemma LineIsRead(m: Machine)
    ensures |Split(Line(m))| == 4 <==> m.connection != ""
    ensures m.connection != "" ==> Split(Line(m)) == [m.name, m.path, m.power, m.connection]
  {
    SplitJoin([m.name, m.path, m.power, m.connection]);
  }

  predicate On(power: string, connection: string, disconnectedHack: bool) {
    Lower(power) == "poweredon" && (disconnectedHack ==> Lower(connection) == "connected")
  }

  /** The power and connection states there are: only a machine that is powered on is on, and
      with disconnectedHack only one that is connected. */
  lemma StatesMean(power: string, connection: string)
    requires power in {"poweredOn", "poweredOff", "suspended"}
    requires connection in {"connected", "disconnected", "inaccessible", "invalid", "orphaned"}
    ensures On(power, connection, false) <==> power == "poweredOn"
    ensures On(power, connection, true) <==> power == "poweredOn" && connection == "connected"
  {
    assert Lower("poweredOn") == "poweredon" && Lower("poweredOff") == "poweredoff" && Lower("suspended") == "suspended";
    assert Lower("connected") == "connected" && |Lower("disconnected")| == 12 && |Lower("inaccessible")| == 12;
    assert |Lower("invalid")| == 7 && |Lower("orphaned")| == 8;
  }

  /** The state of a machine as the helper prints it. */
  ghost predicate IsOnIn(m: Machine, hack: bool, on: bool) {
    && m.power in {"poweredOn", "poweredOff", "suspended"}
    && m.connection in {"connected", "disconnected", "inaccessible", "invalid", "orphaned"}
    ==> (on <==> m.power == "poweredOn" && (hack ==> m.connection == "connected"))
  }

  lemma StateOf(m: Machine, hack: bool)
    ensures IsOnIn(m, hack, On(m.power, m.connection, hack))
  {
    if m.power in {"poweredOn", "poweredOff", "suspended"} && m.connection in {"connected", "disconnected", "inaccessible", "invalid", "orphaned"} {
      StatesMean(m.power, m.connection);
    }
  }

  datatype Outlet = Outlet(name: string, on: bool)

  /** The outlet a line tells of; lines that have not four fields are passed over. */
  function Parse(line: string, hack: bool): Option<Outlet> {
    var f := Split(line);
    if |f| == 4 then Some(Outlet(f[0], On(f[2], f[3], hack))) else None
  }

  /** A line of another number of fields is passed over; of four, the first is the name, the
      third the power and the fourth the connection state. */
  lemma LinesOfFour(fields: seq<string>, hack: bool)
    requires fields != [] && fields[|fields|-1] != ""
    ensures Parse(Join(fields), hack) == if |fields| != 4 then None else Some(Outlet(fields[0], On(fields[2], fields[3], hack)))
  {
    RoundTrip(fields);
  }

  ghost predicate NamedApart(rows: seq<Option<Outlet>>) {
    forall i, j | 0 <= i < j < |rows| && rows[i].Some? && rows[j].Some? :: rows[i].value.name != rows[j].value.name
  }

  /** found is the table of the outlets in the rows. */
  ghost predicate Tabulates(found: map<string, bool>, rows: seq<Option<Outlet>>) {
    && (forall i | 0 <= i < |rows| && rows[i].Some? ::
          rows[i].value.name in found && found[rows[i].value.name] == rows[i].value.on)
    && (forall n | n in found :: exists i :: 0 <= i < |rows| && rows[i].Some? && rows[i].value.name == n)
  }

  ghost function Rows(lines: seq<string>, hack: bool): seq<Option<Outlet>> {
    seq(|lines|, i requires 0 <= i < |lines| => Parse(lines[i], hack))
  }

  /** vmware_get_outlets_vi, from the lines of the helper's output.  None: the agent fails
      because two machines have the same name. */
  method GetOutlets(lines: seq<string>, hack: bool) returns (outlets: Option<map<string, bool>>)
    ensures outlets.Some? <==> NamedApart(Rows(lines, hack))
    ensures outlets.Some? ==> Tabulates(outlets.value, Rows(lines, hack))
  {
    var found: map<string, bool> := map[];
    ghost var rows := Rows(lines, hack);
    for k := 0 to |lines|
      invariant NamedApart(rows[..k]) && Tabulates(found, rows[..k])
    {
      var f := DsvSplit(lines[k]);
      assert rows[k] == Parse(lines[k], hack) && rows[..k+1] == rows[..k] + [rows[k]];
      if |f| == 4 {
        if f[0] in found {
          ghost var i :| 0 <= i < k && rows[..k][i].Some? && rows[..k][i].value.name == f[0];
          assert rows[i].value.name == rows[k].value.name;
          return None;
        }
        found := found[f[0] := On(f[2], f[3], hack)];
      }
      NextRow(found, rows[..k], rows[k]);
    }
    assert rows[..|lines|] == rows;
    return Some(found);
  }

  lemma NextRow(found: map<string, bool>, rows: seq<Option<Outlet>>, row: Option<Outlet>)
    requires NamedApart(rows)
    requires row.None? ==> Tabulates(found, rows)
    requires row.Some? ==> exists before :: Tabulates(before, rows) && row.value.name !in before
                                            && found == before[row.value.name := row.value.on]
    ensures NamedApart(rows + [row]) && Tabulates(found, rows + [row])
  {
    if row.Some? {
      var n := row.value.name;
      assert (rows + [row])[|rows|] == row;
      forall m | m in found ensures exists i :: 0 <= i <= |rows| && (rows + [row])[i].Some? && (rows + [row])[i].value.name == m {
        if m != n {
          var i :| 0 <= i < |rows| && rows[i].Some? && rows[i].value.name == m;
          assert (rows + [row])[i] == rows[i];
        }
      }
    } else {
      forall m | m in found ensures exists i :: 0 <= i <= |rows| && (rows + [row])[i].Some? && (rows + [row])[i].value.name == m {
        var i :| 0 <= i < |rows| && rows[i].Some? && rows[i].value.name == m;
        assert (rows + [row])[i] == rows[i];
      }
    }
  }

  /** found says of every machine, and of no other name, what its own state is. */
  ghost predicate Lists(found: map<string, bool>, machines: seq<Machine>, hack: bool) {
    && (forall i | 0 <= i < |machines| :: var m := machines[i];
          m.name in found && found[m.name] == On(m.power, m.connection, hack) && IsOnIn(m, hack, found[m.name]))
    && (forall n | n in found :: exists i :: 0 <= i < |machines| && machines[i].name == n)
  }

  ghost predicate AreRows(rows: seq<Option<Outlet>>, machines: seq<Machine>, hack: bool) {
    |rows| == |machines| && forall i | 0 <= i < |rows| ::
      rows[i] == Some(Outlet(machines[i].name, On(machines[i].power, machines[i].connection, hack)))
  }

  lemma TableOfRows(found: map<string, bool>, rows: seq<Option<Outlet>>, machines: seq<Machine>, hack: bool)
    requires AreRows(rows, machines, hack) && Tabulates(found, rows)
    ensures Lists(found, machines, hack)
  {
    forall i | 0 <= i < |machines| {
      StateOf(machines[i], hack);
    }
    forall n | n in found ensures exists i :: 0 <= i < |machines| && machines[i].name == n {
      var i :| 0 <= i < |rows| && rows[i].Some? && rows[i].value.name == n;
      assert machines[i].name == n;
    }
  }

  /** The outlets are those of the machines: what a machine's name is looked up to is its
      own power state, and no machine with a connection state is missing. */
  method OutletsOf(machines: seq<Machine>, hack: bool) returns (outlets: Option<map<string, bool>>)
    requires forall i | 0 <= i < |machines| :: machines[i].connection != ""
    ensures outlets.Some? <==> forall i, j | 0 <= i < j < |machines| :: machines[i].name != machines[j].name
    ensures outlets.Some? ==> Lists(outlets.value, machines, hack)
  {
    var lines := seq(|machines|, i requires 0 <= i < |machines| => Line(machines[i]));
    RowsOfMachines(lines, machines, hack);
    outlets := GetOutlets(lines, hack);
    if outlets.Some? { TableOfRows(outlets.value, Rows(lines, hack), machines, hack); }
  }

  lemma RowsOfMachines(lines: seq<string>, machines: seq<Machine>, hack: bool)
    requires |lines| == |machines| && forall i | 0 <= i < |machines| :: machines[i].connection != "" && lines[i] == Line(machines[i])
    ensures AreRows(Rows(lines, hack), machines, hack)
    ensures NamedApart(Rows(lines, hack)) <==> forall i, j | 0 <= i < j < |machines| :: machines[i].name != machines[j].name
  {
    var rows := Rows(lines, hack);
    forall i | 0 <= i < |rows|
      ensures rows[i] == Some(Outlet(machines[i].name, On(machines[i].power, machines[i].connection, hack)))
    {
      LineIsRead(machines[i]);
    }
    if NamedApart(rows) {
      assert forall i, j | 0 <= i < j < |machines| :: rows[i].value.name != rows[j].value.name;
    }
  }
}
