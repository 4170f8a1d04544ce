/** `process_traders` without its file handling: the identifier list, the index of
    organisations by `inn`, and the rows written after the CSV header. */
module TraderIndex {
  import opened JsonValues

  // ---------------------------------------------------------------------------------
  // Reading the identifier list: every line stripped of surrounding whitespace, blank
  // lines dropped

  /** Python's `str.isspace` for one character: the characters `str.strip()` removes. */
  predicate IsSpace(c: char) {
    || c == '\t' || c == '\n' || c == '\U{000B}' || c == '\U{000C}' || c == '\r'
    || c == '\U{001C}' || c == '\U{001D}' || c == '\U{001E}' || c == '\U{001F}' || c == ' '
    || c == '\U{0085}' || c == '\U{00A0}' || c == '\U{1680}'
    || ('\U{2000}' <= c <= '\U{200A}')
    || c == '\U{2028}' || c == '\U{2029}' || c == '\U{202F}' || c == '\U{205F}' || c == '\U{3000}'
  }

  predicate AllSpace(s: string) {
    forall k {:trigger IsSpace(s[k])} :: 0 <= k < |s| ==> IsSpace(s[k])
  }

  /** The number of whitespace characters `s` starts with. */
  function LeadingSpaces(s: string): (n: nat)
    ensures n <= |s| && AllSpace(s[..n])
    ensures n < |s| ==> !IsSpace(s[n])
  {
    if s != [] && IsSpace(s[0]) then
      var n := 1 + LeadingSpaces(s[1..]);
      assert forall k :: 0 < k < n ==> s[..n][k] == s[1..][..n - 1][k - 1];
      n
    else 0
  }

  /** The length of `s` without its trailing whitespace. */
  function ContentEnd(s: string): (n: nat)
    ensures n <= |s| && AllSpace(s[n..])
    ensures n > 0 ==> !IsSpace(s[n - 1])
  {
    if s != [] && IsSpace(s[|s| - 1]) then
      var n := ContentEnd(s[..|s| - 1]);
      assert forall k :: 0 <= k < |s| - 1 - n ==> s[n..][k] == s[..|s| - 1][n..][k];
      n
    else |s|
  }

  /** `r` is `s` from `i` on with all of its leading and trailing whitespace cut off. */
  ghost predicate StripAt(s: string, r: string, i: nat) {
    && i + |r| <= |s| && s[i..i + |r|] == r
    && AllSpace(s[..i]) && AllSpace(s[i + |r|..])
    && (r != [] ==> !IsSpace(r[0]) && !IsSpace(r[|r| - 1]))
  }

  /** `str.strip()` with no argument. */
  function Strip(s: string): (r: string)
    ensures StripAt(s, r, LeadingSpaces(s))
    ensures r == [] <==> AllSpace(s)
  {
    var a := LeadingSpaces(s);
    var b := ContentEnd(s);
    if b <= a then
      []
    else
      assert s[a..b][0] == s[a] && s[a..b][b - a - 1] == s[b - 1];
      assert s[a..][..b - a] == s[a..b];
      s[a..b]
  }

  /** Two strips of the same string agree: `StripAt` pins the result down. */
  lemma StripUnique(s: string, r1: string, i1: nat, r2: string, i2: nat)
    requires StripAt(s, r1, i1) && StripAt(s, r2, i2)
    ensures r1 == r2
  {
  }

  /** The identifiers of the list file: each line stripped, blank lines dropped, in order. */
  function InnList(lines: seq<string>): (r: seq<string>)
    ensures |r| <= |lines|
    ensures forall i :: 0 <= i < |r| ==> r[i] != "" && !IsSpace(r[i][0]) && !IsSpace(r[i][|r[i]| - 1])
  {
    if lines == [] then []
    else
      var x := Strip(lines[0]);
      (if x != "" then [x] else []) + InnList(lines[1..])
  }

  /** An identifier is listed exactly when it is the non-blank strip of some line, and the list
      is empty exactly when every line is blank. */
  lemma {:induction false} InnListMembers(lines: seq<string>, x: string)
    ensures x in InnList(lines) <==> x != "" && exists i :: 0 <= i < |lines| && Strip(lines[i]) == x
  {
    if lines != [] {
      InnListMembers(lines[1..], x);
      assert forall i :: 0 < i < |lines| ==> lines[1..][i - 1] == lines[i];
    }
  }

  /** The list is empty exactly when every line strips to nothing, that is (by `Strip`'s
      contract) when every line of the file is blank. */
  lemma InnListEmpty(lines: seq<string>)
    ensures InnList(lines) == [] <==> forall i :: 0 <= i < |lines| ==> Strip(lines[i]) == ""
  {
    if InnList(lines) != [] {
      InnListMembers(lines, InnList(lines)[0]);
    }
    forall i | 0 <= i < |lines| && Strip(lines[i]) != "" ensures InnList(lines) != [] {
      InnListMembers(lines, Strip(lines[i]));
    }
  }

  // ---------------------------------------------------------------------------------
  // The index: each organisation with a truthy `inn` filed under it, later ones replacing
  // earlier ones

  const InnField := "inn"
  const OgrnField := "ogrn"
  const AddressField := "address"

  /** Every organisation is a dict whose truthy `inn` can be hashed: the inputs the index loop
      handles without raising. */
  predicate Indexable(orgs: seq<Json>) {
    forall i :: 0 <= i < |orgs| ==> KeyableField(orgs[i], InnField)
  }

  /** The index after the loop has seen `orgs`, in order. */
  function IndexOf(orgs: seq<Json>): (index: map<Key, Json>)
    requires Indexable(orgs)
    ensures forall k :: k in index ==> index[k].JObj? && DistinctKeys(index[k].members) && Truthy(index[k])
    decreases |orgs|
  {
    if orgs == [] then map[]
    else
      var index := IndexOf(orgs[..|orgs| - 1]);
      var org := orgs[|orgs| - 1];
      match FieldKey(org, InnField)
      case None => index
      case Some(k) => index[k := org]
  }

  /** The index holds a key exactly when some organisation has that truthy `inn`. */
  lemma {:induction false} IndexKeys(orgs: seq<Json>, k: Key)
    requires Indexable(orgs)
    ensures k in IndexOf(orgs) <==> exists i :: 0 <= i < |orgs| && FieldKey(orgs[i], InnField) == Some(k)
    decreases |orgs|
  {
    if orgs != [] {
      var n := |orgs| - 1;
      IndexKeys(orgs[..n], k);
      assert forall i :: 0 <= i < n ==> orgs[..n][i] == orgs[i];
    }
  }

  /** Last wins: a key maps to the last organisation carrying it. */
  lemma {:induction false} IndexLastWins(orgs: seq<Json>, i: nat, k: Key)
    requires Indexable(orgs) && i < |orgs| && FieldKey(orgs[i], InnField) == Some(k)
    requires forall j :: i < j < |orgs| ==> FieldKey(orgs[j], InnField) != Some(k)
    ensures k in IndexOf(orgs) && IndexOf(orgs)[k] == orgs[i]
    decreases |orgs|
  {
    var n := |orgs| - 1;
    if i < n {
      assert forall j :: i < j < n ==> orgs[..n][j] == orgs[j];
      IndexLastWins(orgs[..n], i, k);
    }
  }

  /** The index loop of `process_traders`. */
  method BuildIndex(orgs: seq<Json>) returns (index: map<Key, Json>)
    requires Indexable(orgs)
    ensures index == IndexOf(orgs)
  {
    index := map[];
    for i := 0 to |orgs|
      invariant index == IndexOf(orgs[..i])
    {
      assert orgs[..i + 1][..i] == orgs[..i];
      var org := orgs[i];
      var innValue := Get(org, InnField);
      if !TruthyOpt(innValue) {
        continue;
      }
      index := index[KeyOf(innValue.value) := org];
    }
    assert orgs[..|orgs|] == orgs;
  }

  // ---------------------------------------------------------------------------------
  // The rows: for each identifier found, the identifier with its organisation's `ogrn`
  // and `address` (empty when missing)

  /** One data row of the CSV file, cell values as the record holds them. */
  datatype Row = Row(inn: string, ogrn: Json, address: Json)

  predicate IndexOfDicts(index: map<Key, Json>) {
    forall k :: k in index ==> index[k].JObj? && DistinctKeys(index[k].members)
  }

  /** The row for an identifier whose organisation was found; a missing field becomes `""`. */
  function RowFor(inn: string, org: Json): (r: Row)
    requires org.JObj? && DistinctKeys(org.members)
    ensures r.inn == inn
    ensures forall v :: Member(OgrnField, v) in org.members ==> r.ogrn == v
    ensures (forall i :: 0 <= i < |org.members| ==> org.members[i].key != OgrnField) ==> r.ogrn == JStr("")
    ensures forall v :: Member(AddressField, v) in org.members ==> r.address == v
    ensures (forall i :: 0 <= i < |org.members| ==> org.members[i].key != AddressField) ==> r.address == JStr("")
  {
    Row(inn, GetOr(org, OgrnField, JStr("")), GetOr(org, AddressField, JStr("")))
  }

  /** The identifier's organisation is in the index and is truthy. */
  predicate Hit(index: map<Key, Json>, inn: string) {
    KStr(inn) in index && Truthy(index[KStr(inn)])
  }

  /** The rows written after the loop has seen `inns`, in order. */
  function RowsOf(inns: seq<string>, index: map<Key, Json>): seq<Row>
    requires IndexOfDicts(index)
  {
    if inns == [] then []
    else
      var inn := inns[|inns| - 1];
      RowsOf(inns[..|inns| - 1], index)
        + (if Hit(index, inn) then [RowFor(inn, index[KStr(inn)])] else [])
  }

  /** The identifiers of `inns` that have a hit in the index, in list order. */
  function Matched(inns: seq<string>, index: map<Key, Json>): (r: seq<string>)
    ensures |r| <= |inns|
    ensures forall i :: 0 <= i < |r| ==> Hit(index, r[i])
    ensures forall x :: x in r <==> x in inns && Hit(index, x)
  {
    if inns == [] then []
    else (if Hit(index, inns[0]) then [inns[0]] else []) + Matched(inns[1..], index)
  }

  /** The rows are exactly one full row per matched identifier, in the order of the list:
      unmatched identifiers give no row and there are never more rows than identifiers. */
  lemma {:induction false} RowsAreMatched(inns: seq<string>, index: map<Key, Json>)
    requires IndexOfDicts(index)
    ensures var rows, m := RowsOf(inns, index), Matched(inns, index);
      && |rows| == |m| <= |inns|
      && forall i :: 0 <= i < |rows| ==> rows[i] == RowFor(m[i], index[KStr(m[i])])
    decreases |inns|
  {
    if inns != [] {
      var n := |inns| - 1;
      RowsAreMatched(inns[..n], index);
      MatchedAppend(inns[..n], inns[n], index);
      assert inns[..n] + [inns[n]] == inns;
    }
  }

  lemma {:induction false} MatchedAppend(inns: seq<string>, x: string, index: map<Key, Json>)
    ensures Matched(inns + [x], index) == Matched(inns, index) + (if Hit(index, x) then [x] else [])
    decreases |inns|
  {
    if inns == [] {
      assert [x][1..] == [];
    } else {
      assert (inns + [x])[1..] == inns[1..] + [x];
      MatchedAppend(inns[1..], x, index);
    }
  }

  /** When the index was built from the organisations, a hit is just a present key. */
  lemma HitIsPresence(orgs: seq<Json>, inn: string)
    requires Indexable(orgs)
    ensures Hit(IndexOf(orgs), inn) <==> KStr(inn) in IndexOf(orgs)
  {
  }

  /** The row loop of `process_traders`. */
  method EmitRows(inns: seq<string>, index: map<Key, Json>) returns (rows: seq<Row>)
    requires IndexOfDicts(index)
    ensures rows == RowsOf(inns, index)
  {
    rows := [];
    for i := 0 to |inns|
      invariant rows == RowsOf(inns[..i], index)
    {
      assert inns[..i + 1][..i] == inns[..i];
      var inn := inns[i];
      if KStr(inn) in index && Truthy(index[KStr(inn)]) {
        var org := index[KStr(inn)];
        var ogrnValue := GetOr(org, OgrnField, JStr(""));
        var addressValue := GetOr(org, AddressField, JStr(""));
        rows := rows + [Row(inn, ogrnValue, addressValue)];
      }
    }
    assert inns[..|inns|] == inns;
  }

  // ---------------------------------------------------------------------------------
  // The whole function

  /** What `process_traders` ends with, once its files are read. */
  datatype TradersOutcome =
    | NoIdentifiers      // the list file holds no identifier: warning, nothing written
    | NotAList           // the organisations file is not a JSON array: error, nothing written
    | Table(rows: seq<Row>)  // the CSV file: the header, then these rows

  /** `process_traders` given the lines of the list file and the parsed organisations file. */
  method ProcessTraders(lines: seq<string>, organizations: Json) returns (out: TradersOutcome)
    requires InnList(lines) != [] && organizations.JArr? ==> Indexable(organizations.items)
    ensures InnList(lines) == [] <==> out == NoIdentifiers
    ensures InnList(lines) != [] && !organizations.JArr? ==> out == NotAList
    ensures InnList(lines) != [] && organizations.JArr? ==>
      out == Table(RowsOf(InnList(lines), IndexOf(organizations.items)))
  {
    var innList := InnList(lines);
    if innList == [] {
      return NoIdentifiers;
    }
    if !organizations.JArr? {
      return NotAList;
    }
    var orgIndex := BuildIndex(organizations.items);
    var rows := EmitRows(innList, orgIndex);
    out := Table(rows);
  }
}
