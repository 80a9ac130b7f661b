/**
 * The server table builder, `parse_mullvad_servers`: every row of the saved
 * server table becomes an entry `name -> (country, city)` in a dictionary.
 *
 * The HTML document is abstracted to the sequence of its table rows, each
 * row to the texts of its `<td>` cells in order. The fuzzy country lookup is
 * a parameter: a function from the country cell's text to the two-letter
 * code it resolves to, or `None` when the lookup fails.
 */
module ServerTable {
  import opened Wrappers
  import opened Text

  /** The texts of the `<td>` cells of one table row, in document order. */
  type Row = seq<string>

  /** What the dictionary stores for one server. */
  datatype ServerInfo = ServerInfo(country: string, city: string)

  type ServerMap = map<string, ServerInfo>

  /** A row with fewer than three cells: Python's `IndexError`, uncaught. */
  datatype ParseError = MalformedRow(index: nat)

  /** The country lookup: `Some(code)` on success, `None` when it raises. */
  type CountryLookup = string -> Option<string>

  /** Every row has the three cells the loop reads. */
  predicate WellFormed(rows: seq<Row>) {
    forall j :: 0 <= j < |rows| ==> |rows[j]| >= 3
  }

  /** The server name of a first cell: the text before the first `-`. */
  function ServerName(cell: string): string {
    SplitOnce(cell, "-")[0]
  }

  /**
   * Whether the character at `i` of a city cell survives normalisation:
   * it is not whitespace, and it is not the comma of a `", "`.
   */
  predicate CityKeeps(cell: string, i: int)
    requires 0 <= i < |cell|
  {
    !IsWhitespace(cell[i]) && !OccursAt(cell, ", ", i)
  }

  /** The characters of `cell[k..]` that `CityKeeps`, in order. */
  function CityFilter(cell: string, k: nat): string
    requires k <= |cell|
    decreases |cell| - k
  {
    if k == |cell| then []
    else (if CityKeeps(cell, k) then [cell[k]] else []) + CityFilter(cell, k + 1)
  }

  /**
   * The city cell with every `", "` removed and then the words of what is
   * left joined together.
   */
  function NormaliseCity(cell: string): (city: string)
    ensures NoWhitespace(city)
    ensures |city| <= |cell|
  {
    var removed := Replace(cell, ", ", "");
    ReplaceShrinks(cell, ", ", "");
    JoinWords(removed);
    Concat(Words(removed))
  }

  /** The looked-up code, or the raw cell text when the lookup fails. */
  function CountryCode(cell: string, lookup: CountryLookup): string {
    lookup(cell).GetOr(cell)
  }

  /** The entry a well-formed row contributes, under the key `ServerName(row[0])`. */
  function RowInfo(row: Row, lookup: CountryLookup): ServerInfo
    requires |row| >= 3
  {
    ServerInfo(CountryCode(row[1], lookup), NormaliseCity(row[2]))
  }

  /**
   * The dictionary the loop builds, row by row: each row overwrites the
   * entry of its name; the first row with fewer than three cells aborts.
   */
  function ParseTable(rows: seq<Row>, lookup: CountryLookup): Result<ServerMap, ParseError>
    decreases |rows|
  {
    if rows == [] then
      Ok(map[])
    else
      var last := |rows| - 1;
      match ParseTable(rows[..last], lookup)
      case Err(e) => Err(e)
      case Ok(servers) =>
        if |rows[last]| < 3 then Err(MalformedRow(last))
        else Ok(servers[ServerName(rows[last][0]) := RowInfo(rows[last], lookup)])
  }

  /** The loop of `parse_mullvad_servers` over the table rows. */
  method ParseServers(rows: seq<Row>, lookup: CountryLookup) returns (result: Result<ServerMap, ParseError>)
    ensures result == ParseTable(rows, lookup)
  {
    var servers: ServerMap := map[];
    for i := 0 to |rows|
      invariant ParseTable(rows[..i], lookup) == Ok(servers)
    {
      assert rows[..i + 1][..i] == rows[..i];
      var row := rows[i];
      if |row| < 3 {
        assert ParseTable(rows[..i + 1], lookup) == Err(MalformedRow(i));
        ParseErrorPersists(rows, i + 1, lookup);
        return Err(MalformedRow(i));
      }
      var name := ServerName(row[0]);
      var country := row[1];
      var city := NormaliseCity(row[2]);
      var code;
      match lookup(country) {
        case Some(c) => code := c;
        case None => code := country;
      }
      servers := servers[name := ServerInfo(code, city)];
    }
    assert rows[..|rows|] == rows;
    return Ok(servers);
  }

  // ---------------------------------------------------------------------------
  // Per-cell normalisation

  /**
   * The server name is the longest prefix of the cell without `-`: the whole
   * cell when it has no `-`, and otherwise the text up to its first `-`.
   */
  lemma ServerNameSpec(cell: string)
    ensures var name := ServerName(cell);
      && |name| <= |cell| && name == cell[..|name|]
      && '-' !in name
      && (name == cell || cell[|name|] == '-')
      && ('-' !in cell ==> name == cell)
  {
    var name := ServerName(cell);
    SplitHead(cell, "-");
    ContainsChar(name, '-');
    ContainsChar(cell, '-');
    if name != cell {
      assert cell[|name|..|name| + 1] == "-";
    }
  }

  /**
   * Removing `", "` from `cell[k..]` and then its whitespace keeps exactly
   * the characters from `k` on that `CityKeeps`.
   */
  lemma {:induction false} CityFilterFrom(cell: string, k: nat)
    requires k <= |cell|
    ensures RemoveWhitespace(Replace(cell[k..], ", ", "")) == CityFilter(cell, k)
    decreases |cell| - k
  {
    if k < |cell| {
      ReplaceAt(cell, k);
      if OccursAt(cell, ", ", k) {
        CityFilterFrom(cell, k + 2);
        assert !CityKeeps(cell, k + 1) by {
          assert cell[k + 1] == cell[k..k + 2][1];
        }
      } else {
        var t := Replace(cell[k + 1..], ", ", "");
        CityFilterFrom(cell, k + 1);
        assert ([cell[k]] + t)[0] == cell[k] && ([cell[k]] + t)[1..] == t;
      }
    }
  }

  /** One step of `replace(", ", "")` on `cell[k..]`, read in terms of `cell`. */
  lemma ReplaceAt(cell: string, k: nat)
    requires k < |cell|
    ensures OccursAt(cell, ", ", k) ==>
      Replace(cell[k..], ", ", "") == Replace(cell[k + 2..], ", ", "")
    ensures !OccursAt(cell, ", ", k) ==>
      Replace(cell[k..], ", ", "") == [cell[k]] + Replace(cell[k + 1..], ", ", "")
  {
    var s := cell[k..];
    if k + 2 <= |cell| {
      assert s[0..2] == cell[k..k + 2];
      assert s[2..] == cell[k + 2..];
    }
    assert s[1..] == cell[k + 1..];
  }

  /** City normalisation is `replace` followed by removing whitespace. */
  lemma CityByRemoval(cell: string)
    ensures NormaliseCity(cell) == RemoveWhitespace(Replace(cell, ", ", ""))
  {
    JoinWords(Replace(cell, ", ", ""));
  }

  /**
   * A normalised city is exactly the characters of the cell that
   * `CityKeeps`, in their order in the cell.
   */
  lemma CityIsFilter(cell: string)
    ensures NormaliseCity(cell) == CityFilter(cell, 0)
  {
    CityByRemoval(cell);
    assert cell[0..] == cell;
    CityFilterFrom(cell, 0);
  }

  /**
   * A normalised city holds no `", "`. This follows from the absence of
   * whitespace alone, since a space is whitespace; that `", "` is removed
   * rather than merely broken up is what `CityIsFilter` states.
   */
  lemma CityHasNoCommaSpace(cell: string)
    ensures !Contains(NormaliseCity(cell), ", ")
  {
    var city := NormaliseCity(cell);
    forall j | 0 <= j && j + 2 <= |city|
      ensures !OccursAt(city, ", ", j)
    {
      assert city[j..j + 2][1] == city[j + 1];
      assert !IsWhitespace(city[j + 1]);
    }
  }

  /** `"a, b"` loses its `", "` and keeps the letters in order. */
  lemma CityExample()
    ensures NormaliseCity("a, b") == "ab"
  {
    CityIsFilter("a, b");
    CityFilterExample();
  }

  lemma CityFilterExample()
    ensures CityFilter("a, b", 0) == "ab"
  {
    var c := "a, b";
    assert c[0..2] != ", " by { assert c[0..2][0] == 'a'; }
    assert OccursAt(c, ", ", 1) by { assert c[1..3] == ", "; }
    assert c[2..4] != ", " by { assert c[2..4][0] == ' '; }
    assert CityFilter(c, 4) == [];
    assert CityFilter(c, 3) == "b";
    assert CityFilter(c, 2) == "b";
    assert CityFilter(c, 1) == "b";
  }

  /** Normalising a server name a second time changes nothing. */
  lemma ServerNameIdempotent(cell: string)
    ensures ServerName(ServerName(cell)) == ServerName(cell)
  {
    ServerNameSpec(cell);
    ServerNameSpec(ServerName(cell));
  }

  /**
   * City normalisation drops only whitespace and commas: every other
   * character occurs as often in the result as in the cell.
   */
  lemma CityKeepsOtherCharacters(cell: string, c: char)
    requires !IsWhitespace(c) && c != ','
    ensures multiset(NormaliseCity(cell))[c] == multiset(cell)[c]
  {
    CityByRemoval(cell);
    RemoveCommaSpaceCounts(cell, c);
    RemoveWhitespaceCounts(Replace(cell, ", ", ""), c);
  }

  /** A cell is left unchanged exactly when it holds no whitespace. */
  lemma CityFixedPoint(cell: string)
    ensures NormaliseCity(cell) == cell <==> NoWhitespace(cell)
  {
    CityByRemoval(cell);
    if NoWhitespace(cell) {
      forall i | 0 <= i && i + 2 <= |cell|
        ensures !OccursAt(cell, ", ", i)
      {
        assert cell[i..i + 2][1] == cell[i + 1];
        assert !IsWhitespace(cell[i + 1]);
      }
      ReplaceAbsent(cell, ", ", "");
    }
  }

  /** Normalising a city a second time changes nothing. */
  lemma CityIdempotent(cell: string)
    ensures NormaliseCity(NormaliseCity(cell)) == NormaliseCity(cell)
  {
    CityFixedPoint(NormaliseCity(cell));
  }

  // ---------------------------------------------------------------------------
  // The table as a whole

  /**
   * The parse fails exactly when some row has fewer than three cells, and
   * then it names the first such row.
   */
  lemma {:induction false} ParseTableError(rows: seq<Row>, lookup: CountryLookup)
    ensures ParseTable(rows, lookup).Ok? <==> WellFormed(rows)
    ensures ParseTable(rows, lookup).Err? ==>
      var i := ParseTable(rows, lookup).error.index;
      i < |rows| && |rows[i]| < 3 && WellFormed(rows[..i])
    decreases |rows|
  {
    if rows != [] {
      var last := |rows| - 1;
      ParseTableError(rows[..last], lookup);
      if ParseTable(rows[..last], lookup).Err? {
        var i := ParseTable(rows[..last], lookup).error.index;
        assert rows[..last][..i] == rows[..i];
        assert rows[i] == rows[..last][i];
      } else {
        assert rows[..last] + [rows[last]] == rows;
      }
    }
  }

  /** Some row's first cell normalises to `name`. */
  predicate HasRowNamed(rows: seq<Row>, name: string) {
    exists j :: 0 <= j < |rows| && |rows[j]| > 0 && ServerName(rows[j][0]) == name
  }

  /** A name is carried by a non-empty listing of rows exactly when its prefix or its last row carries it. */
  lemma HasRowNamedSnoc(rows: seq<Row>, name: string)
    requires |rows| > 0 && |rows[|rows| - 1]| > 0
    ensures HasRowNamed(rows, name) <==>
      HasRowNamed(rows[..|rows| - 1], name) || ServerName(rows[|rows| - 1][0]) == name
  {
    var init := rows[..|rows| - 1];
    var last := |rows| - 1;
    if ServerName(rows[last][0]) == name {
      assert 0 <= last < |rows| && |rows[last]| > 0;
    }
    if HasRowNamed(init, name) {
      var j :| 0 <= j < |init| && |init[j]| > 0 && ServerName(init[j][0]) == name;
      assert rows[j] == init[j];
    }
    if HasRowNamed(rows, name) {
      var j :| 0 <= j < |rows| && |rows[j]| > 0 && ServerName(rows[j][0]) == name;
      if j < |init| {
        assert rows[j] == init[j];
      }
    }
  }

  /** The keys of the dictionary are the server names of the rows, and only those. */
  lemma {:induction false} ParseTableKeys(rows: seq<Row>, lookup: CountryLookup)
    requires WellFormed(rows)
    ensures ParseTable(rows, lookup).Ok?
    ensures forall name :: name in ParseTable(rows, lookup).value <==> HasRowNamed(rows, name)
    decreases |rows|
  {
    WellFormedParses(rows, lookup);
    if rows != [] {
      var init := rows[..|rows| - 1];
      assert WellFormed(init);
      ParseTableKeys(init, lookup);
      ParseTableStep(rows, lookup);
      forall name
        ensures name in ParseTable(rows, lookup).value <==> HasRowNamed(rows, name)
      {
        HasRowNamedSnoc(rows, name);
      }
    }
  }

  /**
   * For a name that no later row repeats, the entry is the one built from
   * the row carrying it: its normalised city and its looked-up country code,
   * or the raw country text when the lookup fails.
   */
  lemma {:induction false} ParseTableLastRowWins(rows: seq<Row>, lookup: CountryLookup, j: nat)
    requires WellFormed(rows) && j < |rows|
    requires forall l :: j < l < |rows| ==> ServerName(rows[l][0]) != ServerName(rows[j][0])
    ensures ParseTable(rows, lookup).Ok?
    ensures var name := ServerName(rows[j][0]);
      && name in ParseTable(rows, lookup).value
      && ParseTable(rows, lookup).value[name].city == NormaliseCity(rows[j][2])
      && ParseTable(rows, lookup).value[name].country ==
           (if lookup(rows[j][1]).Some? then lookup(rows[j][1]).value else rows[j][1])
    decreases |rows|
  {
    ParseTableError(rows, lookup);
    var last := |rows| - 1;
    if j < last {
      ParseTableLastRowWins(rows[..last], lookup, j);
      assert rows[..last][j] == rows[j];
    }
  }

  /** Updating a union of maps is updating its right operand. */
  lemma UpdateAfterUnion<K, V>(m1: map<K, V>, m2: map<K, V>, k: K, v: V)
    ensures (m1 + m2)[k := v] == m1 + m2[k := v]
  {
  }

  /** Once a prefix of the table fails, the whole table fails the same way. */
  lemma {:induction false} ParseErrorPersists(rows: seq<Row>, n: nat, lookup: CountryLookup)
    requires n <= |rows| && ParseTable(rows[..n], lookup).Err?
    ensures ParseTable(rows, lookup) == ParseTable(rows[..n], lookup)
    decreases |rows| - n
  {
    if n < |rows| {
      assert rows[..|rows| - 1][..n] == rows[..n];
      ParseErrorPersists(rows[..|rows| - 1], n, lookup);
    } else {
      assert rows[..n] == rows;
    }
  }

  /** One more well-formed row after a successful parse updates one entry. */
  lemma ParseTableStep(rows: seq<Row>, lookup: CountryLookup)
    requires |rows| > 0 && |rows[|rows| - 1]| >= 3
    requires ParseTable(rows[..|rows| - 1], lookup).Ok?
    ensures ParseTable(rows, lookup) ==
      var last := rows[|rows| - 1];
      Ok(ParseTable(rows[..|rows| - 1], lookup).value[ServerName(last[0]) := RowInfo(last, lookup)])
  {
  }

  /** A table whose rows all have three cells parses. */
  lemma WellFormedParses(rows: seq<Row>, lookup: CountryLookup)
    requires WellFormed(rows)
    ensures ParseTable(rows, lookup).Ok?
  {
    ParseTableError(rows, lookup);
  }

  /** Two well-formed tables read one after the other form a well-formed table. */
  lemma WellFormedConcat(a: seq<Row>, b: seq<Row>)
    requires WellFormed(a) && WellFormed(b)
    ensures WellFormed(a + b)
  {
  }

  /**
   * The dictionary of two tables read one after the other is the first
   * table's dictionary overridden by the second's.
   */
  lemma {:induction false} ParseTableConcat(a: seq<Row>, b: seq<Row>, lookup: CountryLookup)
    requires WellFormed(a) && WellFormed(b)
    ensures ParseTable(a + b, lookup).Ok? && ParseTable(a, lookup).Ok? && ParseTable(b, lookup).Ok?
    ensures ParseTable(a + b, lookup).value == ParseTable(a, lookup).value + ParseTable(b, lookup).value
    decreases |b|
  {
    WellFormedConcat(a, b);
    WellFormedParses(a, lookup);
    WellFormedParses(b, lookup);
    WellFormedParses(a + b, lookup);
    if b == [] {
      assert a + b == a;
    } else {
      assert WellFormed(b[..|b| - 1]);
      ParseTableConcat(a, b[..|b| - 1], lookup);
      ParseTableConcatStep(a, b, lookup);
    }
  }

  /** The inductive step of `ParseTableConcat`: one more row at the end of `b`. */
  lemma ParseTableConcatStep(a: seq<Row>, b: seq<Row>, lookup: CountryLookup)
    requires WellFormed(a) && WellFormed(b) && |b| > 0
    requires ParseTable(a + b[..|b| - 1], lookup).Ok? && ParseTable(a, lookup).Ok?
    requires ParseTable(b[..|b| - 1], lookup).Ok?
    requires ParseTable(a + b[..|b| - 1], lookup).value ==
      ParseTable(a, lookup).value + ParseTable(b[..|b| - 1], lookup).value
    ensures ParseTable(a + b, lookup).Ok? && ParseTable(b, lookup).Ok?
    ensures ParseTable(a + b, lookup).value == ParseTable(a, lookup).value + ParseTable(b, lookup).value
  {
    var init, row := b[..|b| - 1], b[|b| - 1];
    var ab := a + b;
    assert ab[..|ab| - 1] == a + init;
    assert ab[|ab| - 1] == row;
    ParseTableStep(ab, lookup);
    ParseTableStep(b, lookup);
    UpdateAfterUnion(ParseTable(a, lookup).value, ParseTable(init, lookup).value,
      ServerName(row[0]), RowInfo(row, lookup));
  }

  /** Rows read earlier cannot change the final entry of a name a later row carries. */
  lemma EarlierRowsCannotOverride(a: seq<Row>, b: seq<Row>, lookup: CountryLookup, name: string)
    requires WellFormed(a) && WellFormed(b)
    requires ParseTable(b, lookup).Ok? && name in ParseTable(b, lookup).value
    ensures ParseTable(a + b, lookup).Ok? && name in ParseTable(a + b, lookup).value
    ensures ParseTable(a + b, lookup).value[name] == ParseTable(b, lookup).value[name]
  {
    ParseTableConcat(a, b, lookup);
  }
}
