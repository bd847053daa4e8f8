/** The multiplayer identity store: a table of server ids and tokens, its text form, and what a restart
    reads back. */
module IdentityStore {
  import opened Common

  type Table = map<string, string>

  type Entry = (string, string)

  /** The first position of a character, or the length. */
  function IndexOf(s: string, c: char): (i: nat)
    ensures i <= |s| && (i < |s| ==> s[i] == c) && c !in s[..i]
  {
    if s == "" || s[0] == c then 0
    else
      var i := 1 + IndexOf(s[1..], c);
      assert s[..i] == [s[0]] + s[1..][..i - 1];
      i
  }

  lemma IndexIs(s: string, c: char, t: string)
    requires c !in s
    ensures IndexOf(s + [c] + t, c) == |s|
  {
    var u := s + [c] + t;
    var i := IndexOf(u, c);
    assert u[|s|] == c && u[..|s|] == s;
  }

  /** What can be read back: a non-empty id without '=', a non-empty token, no line feed in either. */
  predicate ReadableEntry(id: string, token: string) {
    id != "" && token != "" && '=' !in id && '\n' !in id && '\n' !in token
  }

  /** What `store` admits. */
  predicate AdmissibleEntry(id: string, token: string) {
    id != "" && token != "" && forall c :: c in "=\r\n" ==> c !in id && c !in token
  }

  predicate WellFormed(table: Table) {
    forall id :: id in table ==> ReadableEntry(id, table[id])
  }

  // ---------- the text form ----------

  function Line(e: Entry): string {
    e.0 + "=" + e.1 + "\n"
  }

  function Print(entries: seq<Entry>): string {
    if entries == [] then "" else Print(entries[..|entries| - 1]) + Line(entries[|entries| - 1])
  }

  /** Reads one line into the table; an id that is there already keeps its token. */
  function ReadLine(line: string, table: Table): Option<Table> {
    if line == "" then Some(table)
    else
      var separator := IndexOf(line, '=');
      if separator == |line| || separator == 0 || separator + 1 >= |line| then None
      else if line[..separator] in table then Some(table)
      else Some(table[line[..separator] := line[separator + 1..]])
  }

  function Parse(text: string, table: Table): Option<Table>
    decreases |text|
  {
    if text == "" then Some(table)
    else
      var end := IndexOf(text, '\n');
      match ReadLine(text[..end], table)
      case None => None
      case Some(next) => if end == |text| then Some(next) else Parse(text[end + 1..], next)
  }

  /** One line an entry: id, '=', token, line feed. */
  lemma PrintIs(entries: seq<Entry>, id: string, token: string)
    ensures Print([]) == ""
    ensures Print(entries + [(id, token)]) == Print(entries) + (id + "=" + token + "\n")
  {
    assert (entries + [(id, token)])[..|entries|] == entries;
  }

  /** A line: empty, or an id and a token with the first '=' between them; all else is malformed. */
  lemma ReadLineIs(line: string, table: Table)
    ensures line == "" ==> ReadLine(line, table) == Some(table)
    ensures forall id: string, token: string :: line == id + "=" + token && '=' !in id ==>
              ReadLine(line, table) ==
              if id == "" || token == "" then None else if id in table then Some(table) else Some(table[id := token])
    ensures line != "" && '=' !in line ==> ReadLine(line, table) == None
  {
    forall id: string, token: string | line == id + "=" + token && '=' !in id
      ensures IndexOf(line, '=') == |id| && line[..|id|] == id && line[|id| + 1..] == token
    {
      IndexIs(id, '=', token);
      assert line == id + ['='] + token;
    }
  }

  // ---------- reading and writing ----------

  lemma ReadLineKeepsWellFormed(line: string, table: Table)
    requires WellFormed(table) && '\n' !in line
    ensures var r := ReadLine(line, table); r.Some? ==> WellFormed(r.value)
  {
    var separator := IndexOf(line, '=');
    if 0 < separator && separator + 1 < |line| {
      var id, token := line[..separator], line[separator + 1..];
      assert forall c :: c in id || c in token ==> c in line;
      assert ReadableEntry(id, token);
    }
  }

  /** Whatever the file holds, a table that can be read at all is well formed. */
  lemma {:induction false} ParsedIsWellFormed(text: string, table: Table)
    requires WellFormed(table)
    ensures var r := Parse(text, table); r.Some? ==> WellFormed(r.value)
    decreases |text|
  {
    if text != "" {
      var end := IndexOf(text, '\n');
      ReadLineKeepsWellFormed(text[..end], table);
      var next := ReadLine(text[..end], table);
      if next.Some? && end < |text| {
        ParsedIsWellFormed(text[end + 1..], next.value);
      }
    }
  }

  lemma ParseFirstLine(e: Entry, rest: string, table: Table)
    requires ReadableEntry(e.0, e.1)
    ensures Parse(Line(e) + rest, table) == Parse(rest, if e.0 in table then table else table[e.0 := e.1])
  {
    var line := e.0 + "=" + e.1;
    var text := Line(e) + rest;
    assert text == line + ['\n'] + rest;
    assert '\n' !in line;
    IndexIs(line, '\n', rest);
    assert text[..|line|] == line && text[|line| + 1..] == rest;
    IndexIs(e.0, '=', e.1);
    assert line == e.0 + ['='] + e.1;
    assert line[..|e.0|] == e.0 && line[|e.0| + 1..] == e.1;
  }

  /** The table that reading entries one after the other builds on top of another. */
  function Add(table: Table, entries: seq<Entry>): Table
    decreases entries
  {
    if entries == [] then table
    else Add(if entries[0].0 in table then table else table[entries[0].0 := entries[0].1], entries[1..])
  }

  lemma {:induction false} PrintFromFront(entries: seq<Entry>)
    requires entries != []
    ensures Print(entries) == Line(entries[0]) + Print(entries[1..])
  {
    var n := |entries| - 1;
    if n == 0 {
      assert entries[..0] == [] && entries[1..] == [];
    } else {
      PrintFromFront(entries[..n]);
      var middle := entries[1..][..n - 1];
      assert entries[..n][1..] == middle;
      var first, rest, last := Line(entries[0]), Print(middle), Line(entries[n]);
      assert Print(entries) == (first + rest) + last;
      assert Print(entries[1..]) == rest + last;
    }
  }

  /** Reading printed entries back adds exactly those entries. */
  lemma {:induction false} ReadBack(entries: seq<Entry>, table: Table)
    requires forall e :: e in entries ==> ReadableEntry(e.0, e.1)
    ensures Parse(Print(entries), table) == Some(Add(table, entries))
    decreases entries
  {
    if entries != [] {
      PrintFromFront(entries);
      ParseFirstLine(entries[0], Print(entries[1..]), table);
      ReadBack(entries[1..], if entries[0].0 in table then table else table[entries[0].0 := entries[0].1]);
    }
  }

  /** The entries list the table: every id once, in some order. */
  predicate Lists(entries: seq<Entry>, table: Table) {
    && (forall i, j :: 0 <= i < j < |entries| ==> entries[i].0 != entries[j].0)
    && (forall e :: e in entries ==> e.0 in table && table[e.0] == e.1)
    && forall id :: id in table ==> (id, table[id]) in entries
  }

  lemma {:induction false} AddLookup(table: Table, entries: seq<Entry>, id: string)
    requires forall i, j :: 0 <= i < j < |entries| ==> entries[i].0 != entries[j].0
    ensures id in Add(table, entries) <==> id in table || exists e :: e in entries && e.0 == id
    ensures id in table ==> Add(table, entries)[id] == table[id]
    ensures id !in table ==> forall e :: e in entries && e.0 == id ==> Add(table, entries)[id] == e.1
    decreases entries
  {
    if entries != [] {
      var e0, rest := entries[0], entries[1..];
      AddLookup(if e0.0 in table then table else table[e0.0 := e0.1], rest, id);
      assert forall e :: e in entries <==> e == e0 || e in rest;
      assert forall e :: e in rest ==> e.0 != e0.0;
    }
  }

  /** The round trip: whatever order the table is listed in, reading what was written gives the table. */
  lemma RoundTrip(entries: seq<Entry>, table: Table)
    requires WellFormed(table) && Lists(entries, table)
    ensures Parse(Print(entries), map[]) == Some(table)
  {
    ReadBack(entries, map[]);
    var read := Add(map[], entries);
    forall id ensures (id in read <==> id in table) && (id in read ==> read[id] == table[id]) {
      AddLookup(map[], entries, id);
      if id in table { assert (id, table[id]) in entries; }
    }
    assert read == table;
  }

  // ---------- the order the file is written in ----------

  /** Lexicographic order. */
  predicate Less(s: string, t: string) {
    t != "" && (s == "" || s[0] < t[0] || (s[0] == t[0] && Less(s[1..], t[1..])))
  }

  /** A proper prefix comes first; otherwise the first difference decides. */
  lemma {:induction false} LessExactly(s: string, t: string)
    ensures Less(s, t) <==>
            s < t || exists i :: 0 <= i < |s| && i < |t| && s[..i] == t[..i] && s[i] < t[i]
  {
    if s != "" && t != "" {
      if s[0] != t[0] {
        assert s[..0] == t[..0];
        forall i | 1 <= i < |s| && i < |t| ensures s[..i] != t[..i] { assert s[..i][0] != t[..i][0]; }
      } else {
        var u, v := s[1..], t[1..];
        LessExactly(u, v);
        assert s == [s[0]] + u && t == [t[0]] + v;
        if i :| 0 <= i < |u| && i < |v| && u[..i] == v[..i] && u[i] < v[i] {
          assert s[..i + 1] == [s[0]] + u[..i] && t[..i + 1] == [t[0]] + v[..i];
        }
        if i :| 0 <= i < |s| && i < |t| && s[..i] == t[..i] && s[i] < t[i] {
          assert u[..i - 1] == s[..i][1..] && v[..i - 1] == t[..i][1..];
        }
      }
    }
  }

  lemma {:induction false} LessIsTotal(s: string, t: string)
    ensures Less(s, t) || s == t || Less(t, s)
    ensures !(Less(s, t) && Less(t, s)) && !Less(s, s)
  {
    if s != "" {
      LessIsTotal(s[1..], s[1..]);
      if t != "" && s[0] == t[0] {
        LessIsTotal(s[1..], t[1..]);
        assert s == [s[0]] + s[1..] && t == [t[0]] + t[1..];
      }
    }
  }

  lemma {:induction false} LessIsTransitive(s: string, t: string, u: string)
    requires Less(s, t) && Less(t, u)
    ensures Less(s, u)
  {
    if s != "" && s[0] == t[0] == u[0] { LessIsTransitive(s[1..], t[1..], u[1..]); }
  }

  predicate Ascending(entries: seq<Entry>) {
    forall i, j :: 0 <= i < j < |entries| ==> Less(entries[i].0, entries[j].0)
  }

  /** The first entry of an ascending list has the least id. */
  lemma LeastFirst(entries: seq<Entry>, e: Entry)
    requires Ascending(entries) && e in entries
    ensures e == entries[0] || Less(entries[0].0, e.0)
  {
    var i :| 0 <= i < |entries| && entries[i] == e;
  }

  /** There is only one ascending list of a table, so the file does not depend on the hash order. */
  lemma {:induction false} AscendingIsUnique(s: seq<Entry>, t: seq<Entry>)
    requires Ascending(s) && Ascending(t) && forall e :: e in s <==> e in t
    ensures s == t
    decreases s
  {
    assert t != [] ==> t[0] in t;
    if s != [] {
      assert s[0] in t;
      assert t[0] in s;
      LeastFirst(s, t[0]);
      LeastFirst(t, s[0]);
      LessIsTotal(s[0].0, t[0].0);
      assert s[0] == t[0];
      forall e ensures e in s[1..] <==> e in t[1..] {
        OnlyOnce(s, e);
        OnlyOnce(t, e);
      }
      AscendingIsUnique(s[1..], t[1..]);
      assert s == [s[0]] + s[1..] && t == [t[0]] + t[1..];
    }
  }

  lemma OnlyOnce(s: seq<Entry>, e: Entry)
    requires s != [] && Ascending(s)
    ensures e in s[1..] <==> e in s && e != s[0]
  {
    if e in s[1..] {
      var i :| 0 <= i < |s[1..]| && s[1..][i] == e;
      assert s[i + 1] == e;
      LessIsTotal(s[0].0, s[0].0);
    }
  }

  /** Puts one entry into its place. */
  method Insert(sorted: seq<Entry>, e: Entry) returns (r: seq<Entry>)
    requires Ascending(sorted) && forall x :: x in sorted ==> x.0 != e.0
    ensures Ascending(r) && forall x :: x in r <==> x in sorted || x == e
  {
    var at := 0;
    while at < |sorted| && Less(sorted[at].0, e.0)
      invariant at <= |sorted|
      invariant forall j :: 0 <= j < at ==> Less(sorted[j].0, e.0)
    {
      at := at + 1;
    }
    r := sorted[..at] + [e] + sorted[at..];
    forall j | at <= j < |sorted| ensures Less(e.0, sorted[j].0) {
      LessIsTotal(e.0, sorted[at].0);
      if at < j { LessIsTransitive(e.0, sorted[at].0, sorted[j].0); }
    }
    Inserted(sorted, at, e);
  }

  lemma Inserted(s: seq<Entry>, at: nat, e: Entry)
    requires at <= |s| && Ascending(s)
    requires forall j :: 0 <= j < at ==> Less(s[j].0, e.0)
    requires forall j :: at <= j < |s| ==> Less(e.0, s[j].0)
    ensures var r := s[..at] + [e] + s[at..]; Ascending(r) && forall x :: x in r <==> x in s || x == e
  {
    var r := s[..at] + [e] + s[at..];
    forall i, j | 0 <= i < j < |r| ensures Less(r[i].0, r[j].0) {
      assert r[i] == if i < at then s[i] else if i == at then e else s[i - 1];
      assert r[j] == if j < at then s[j] else if j == at then e else s[j - 1];
    }
    assert s == s[..at] + s[at..];
  }

  /** The entries in ascending order, visited in whatever order the hash map yields them. */
  method SortedEntries(table: Table) returns (entries: seq<Entry>)
    ensures Ascending(entries) && Lists(entries, table)
  {
    entries := [];
    var todo := table.Keys;
    while todo != {}
      invariant todo <= table.Keys && Ascending(entries)
      invariant forall e :: e in entries <==> e.0 in table && e.0 !in todo && table[e.0] == e.1
    {
      var id :| id in todo;
      todo := todo - {id};
      entries := Insert(entries, (id, table[id]));
    }
    forall i, j | 0 <= i < j < |entries| ensures entries[i].0 != entries[j].0 {
      LessIsTotal(entries[i].0, entries[i].0);
    }
  }

  // ---------- the store ----------

  /** The file behind the store, as the text that decrypting it yields. */
  datatype File = Absent | Unreadable | Text(plaintext: string)

  /** A restart on this file comes up with this table. */
  predicate Reads(file: File, table: Table) {
    match file
    case Absent => table == map[]
    case Unreadable => false
    case Text(plaintext) => Parse(plaintext, map[]) == Some(table)
  }

  method FindLineEnd(text: string, start: nat) returns (end: nat)
    requires start < |text|
    ensures start <= end <= |text| && '\n' !in text[start..end] && (end < |text| ==> text[end] == '\n')
  {
    end := start;
    while end < |text| && text[end] != '\n'
      invariant start <= end <= |text| && '\n' !in text[start..end]
    {
      end := end + 1;
    }
  }

  lemma ParseLine(text: string, start: nat, end: nat, table: Table)
    requires start < |text| && start <= end <= |text|
    requires '\n' !in text[start..end] && (end < |text| ==> text[end] == '\n')
    ensures var next := ReadLine(text[start..end], table);
            Parse(text[start..], table) ==
            if next.None? then None else if end == |text| then next else Parse(text[end + 1..], next.value)
  {
    var rest, line := text[start..], text[start..end];
    var n := IndexOf(rest, '\n');
    assert rest[..end - start] == line && rest[..n] == text[start..start + n];
    assert forall i :: 0 <= i < |rest| ==> rest[i] == text[start + i];
    assert n == end - start;
    if end < |text| { assert rest[n + 1..] == text[end + 1..]; }
  }

  /** Reading on from a position; at or past the end there is nothing more to read. */
  function ParseFrom(text: string, start: nat, table: Table): Option<Table> {
    if start < |text| then Parse(text[start..], table) else Some(table)
  }

  datatype Outcome = Done | Invalid | NotWritten

  class Store {
    var tokens: Table
    var file: File

    ghost predicate Valid()
      reads this
    {
      WellFormed(tokens)
    }

    /** Memory and file say the same. */
    ghost predicate Synced()
      reads this
    {
      Valid() && Reads(file, tokens)
    }

    constructor (file: File)
      ensures tokens == map[] && this.file == file
    {
      tokens, this.file := map[], file;
    }

    /** Reads the line at `start` into the table and finds the next one. */
    method LoadLine(plaintext: string, start: nat) returns (ok: bool, end: nat)
      requires start < |plaintext|
      modifies this`tokens
      ensures start <= end <= |plaintext|
      ensures ParseFrom(plaintext, start, old(tokens)) == if ok then ParseFrom(plaintext, end + 1, tokens) else None
    {
      end := FindLineEnd(plaintext, start);
      ParseLine(plaintext, start, end, tokens);
      var next := ReadLine(plaintext[start..end], tokens);
      if next.None? {
        return false, end;
      }
      tokens := next.value;
      ok := true;
    }

    /** Reads the lines one by one into the table; the first malformed one ends the attempt. */
    method LoadText(plaintext: string) returns (ok: bool)
      modifies this`tokens
      ensures Parse(plaintext, old(tokens)) == if ok then Some(tokens) else None
    {
      ghost var whole := Parse(plaintext, tokens);
      var start, end := 0, 0;
      assert plaintext[0..] == plaintext;
      while start < |plaintext|
        invariant start <= |plaintext| && ParseFrom(plaintext, start, tokens) == whole
      {
        ok, end := LoadLine(plaintext, start);
        if !ok || end == |plaintext| {
          return;
        }
        start := end + 1;
      }
      ok := true;
    }

    /** Opens the store on its file; a file that cannot be read is an error. */
    method Load() returns (ok: bool)
      requires tokens == map[]
      modifies this`tokens
      ensures ok <==> file.Absent? || (file.Text? && Parse(file.plaintext, map[]).Some?)
      ensures ok ==> Synced()
    {
      match file {
        case Absent => ok := true;
        case Unreadable => ok := false;
        case Text(plaintext) =>
          ok := LoadText(plaintext);
          ParsedIsWellFormed(plaintext, map[]);
      }
    }

    /** Writes the table, or leaves the old file in place. */
    method Save() returns (ok: bool)
      requires Valid()
      modifies this`file
      ensures ok ==> Synced() && exists entries :: Ascending(entries) && Lists(entries, tokens) && file == Text(Print(entries))
      ensures !ok ==> file == old(file)
    {
      var entries := SortedEntries(tokens);
      var plaintext := "";
      for i := 0 to |entries|
        invariant plaintext == Print(entries[..i])
      {
        assert entries[..i + 1][..i] == entries[..i];
        plaintext := plaintext + Line(entries[i]);
      }
      assert entries[..|entries|] == entries;
      var written: bool := *;     // encryption or the atomic replacement may fail
      if !written {
        return false;
      }
      file := Text(plaintext);
      RoundTrip(entries, tokens);
      return true;
    }

    method TokenFor(id: string) returns (token: Option<string>)
      ensures token == if id in tokens then Some(tokens[id]) else None
    {
      token := if id in tokens then Some(tokens[id]) else None;
    }

    /** Rejects what could not be read back, else updates memory first and then the file. */
    method Put(id: string, token: string) returns (outcome: Outcome)
      requires Valid()
      modifies this
      ensures Valid()
      ensures outcome == Invalid <==>
                id == "" || token == "" || exists c :: (c == '=' || c == '\r' || c == '\n') && (c in id || c in token)
      ensures outcome == Invalid ==> tokens == old(tokens) && file == old(file)
      ensures outcome != Invalid ==> tokens == old(tokens)[id := token]
      ensures outcome == Done ==> Synced()
      ensures outcome == NotWritten ==> file == old(file)
    {
      if id == "" || token == "" || (exists c :: c in "=\r\n" && (c in id || c in token)) {
        return Invalid;
      }
      assert ReadableEntry(id, token) by {
        assert "=\r\n"[0] == '=' && "=\r\n"[2] == '\n';
      }
      tokens := tokens[id := token];
      var ok := Save();
      return if ok then Done else NotWritten;
    }

    method Erase(id: string) returns (outcome: Outcome)
      requires Valid()
      modifies this
      ensures Valid() && tokens == old(tokens) - {id} && outcome != Invalid
      ensures id !in old(tokens) ==> outcome == Done && file == old(file)
      ensures outcome == Done && id in old(tokens) ==> Synced()
      ensures outcome == NotWritten ==> file == old(file)
    {
      if id !in tokens {
        return Done;
      }
      tokens := tokens - {id};
      var ok := Save();
      return if ok then Done else NotWritten;
    }

    /** The token of a server is the same before and after a restart. */
    method TokenSurvivesRestart(id: string) returns (before: Option<string>, after: Option<string>)
      requires Synced()
      ensures before == after
    {
      before := TokenFor(id);
      var restarted, ok := Restart();
      after := restarted.TokenFor(id);
    }

    /** A second store on the same file. */
    method Restart() returns (restarted: Store, ok: bool)
      requires Synced()
      ensures fresh(restarted) && ok && restarted.tokens == tokens && restarted.Synced()
    {
      restarted := new Store(file);
      ok := restarted.Load();
    }
  }
}
