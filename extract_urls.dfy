/** `extract_names_and_generate_urls` and the extension check of `main`:
    find the name columns of a spreadsheet, keep the rows whose two names are
    usable, render one Scopus and one ORCID search URL per kept row, and lay
    each list out as a text file with one URL per line. */
module ExtractUrls {
  import opened Wrappers
  import opened Text
  import opened PercentEncoding

  // ------------------------------------------------------ column resolution

  /** The first-name test: the lower-cased header contains `first_name` or
      `firstname`. */
  predicate IsFirstNameHeader(h: string)
  {
    Contains(Lower(h), "first_name") || Contains(Lower(h), "firstname")
  }

  /** The last-name test: the lower-cased header contains `last_name` or
      `lastname`. */
  predicate IsLastNameHeader(h: string)
  {
    Contains(Lower(h), "last_name") || Contains(Lower(h), "lastname")
  }

  /** The headers that fill the last-name slot: the `elif` is only reached by
      a header that failed the first-name test. */
  predicate TakesLastNameSlot(h: string)
  {
    !IsFirstNameHeader(h) && IsLastNameHeader(h)
  }

  /** `i` is the last position of `s` whose element satisfies `p`. */
  predicate IsLastWith(s: seq<string>, p: string -> bool, i: int)
  {
    0 <= i < |s| && p(s[i]) && forall j :: i < j < |s| ==> !p(s[j])
  }

  /** The last index of `s` whose element satisfies `p`, if any. */
  function LastIndex(s: seq<string>, p: string -> bool): (r: Option<nat>)
    ensures r.Some? ==> IsLastWith(s, p, r.value)
    ensures r.None? ==> forall j :: 0 <= j < |s| ==> !p(s[j])
    decreases |s|
  {
    if s == [] then None
    else if p(s[|s| - 1]) then Some(|s| - 1)
    else LastIndex(s[..|s| - 1], p)
  }

  /** The last element of `s` that satisfies `p`, if any. */
  function LastMatch(s: seq<string>, p: string -> bool): (r: Option<string>)
    ensures r.Some? ==> r.value in s && p(r.value)
  {
    match LastIndex(s, p)
    case None => None
    case Some(i) => Some(s[i])
  }

  /** The (first-name, last-name) column pair the loop ends with, or None when
      either slot is still empty. */
  function ResolvedColumns(headers: seq<string>): (r: Option<(string, string)>)
    ensures r.Some? ==> r.value.0 in headers && r.value.1 in headers
  {
    match (LastMatch(headers, IsFirstNameHeader), LastMatch(headers, TakesLastNameSlot))
    case (Some(f), Some(l)) => Some((f, l))
    case _ => None
  }

  /** Adding one header changes the last match only if that header matches. */
  lemma LastMatchSnoc(s: seq<string>, x: string, p: string -> bool)
    ensures LastMatch(s + [x], p) == if p(x) then Some(x) else LastMatch(s, p)
  {
    assert (s + [x])[..|s|] == s;
  }

  /** The header loop: a later matching header overwrites an earlier one, and
      a first-name header never reaches the last-name test. */
  method ResolveColumns(headers: seq<string>) returns (r: Option<(string, string)>)
    ensures r == ResolvedColumns(headers)
  {
    var firstCol: Option<string> := None;
    var lastCol: Option<string> := None;
    var i := 0;
    while i < |headers|
      invariant 0 <= i <= |headers|
      invariant firstCol == LastMatch(headers[..i], IsFirstNameHeader)
      invariant lastCol == LastMatch(headers[..i], TakesLastNameSlot)
    {
      var col := headers[i];
      LastMatchSnoc(headers[..i], col, IsFirstNameHeader);
      LastMatchSnoc(headers[..i], col, TakesLastNameSlot);
      assert headers[..i + 1] == headers[..i] + [col];
      if IsFirstNameHeader(col) {
        firstCol := Some(col);
      } else if IsLastNameHeader(col) {
        lastCol := Some(col);
      }
      i := i + 1;
    }
    assert headers[..i] == headers;
    if firstCol.None? || lastCol.None? {
      return None;
    }
    return Some((firstCol.value, lastCol.value));
  }

  /** The resolved pair is exactly (the last first-name header, the last
      header that takes the last-name slot); resolution fails exactly when
      one of the two kinds of header is absent. */
  lemma ResolvedColumnsCharacterisation(headers: seq<string>, f: string, l: string)
    ensures ResolvedColumns(headers) == Some((f, l)) <==>
      (exists i :: IsLastWith(headers, IsFirstNameHeader, i) && headers[i] == f) &&
      (exists k :: IsLastWith(headers, TakesLastNameSlot, k) && headers[k] == l)
    ensures ResolvedColumns(headers).None? <==>
      (forall j :: 0 <= j < |headers| ==> !IsFirstNameHeader(headers[j])) ||
      (forall j :: 0 <= j < |headers| ==> !TakesLastNameSlot(headers[j]))
  {
    var fi := LastIndex(headers, IsFirstNameHeader);
    var li := LastIndex(headers, TakesLastNameSlot);
    forall i | IsLastWith(headers, IsFirstNameHeader, i) ensures fi == Some(i) {
      LastIsUnique(headers, IsFirstNameHeader, i, fi);
    }
    forall k | IsLastWith(headers, TakesLastNameSlot, k) ensures li == Some(k) {
      LastIsUnique(headers, TakesLastNameSlot, k, li);
    }
  }

  /** Only one position can be the last one satisfying `p`. */
  lemma LastIsUnique(s: seq<string>, p: string -> bool, i: int, r: Option<nat>)
    requires IsLastWith(s, p, i)
    requires r == LastIndex(s, p)
    ensures r == Some(i)
  {
  }

  /** The last-name column never passes the first-name test, so it is never
      the first-name column, even when it also contains `lastname`. */
  lemma LastNameColumnIsNotFirstNameHeader(headers: seq<string>)
    requires ResolvedColumns(headers).Some?
    ensures IsFirstNameHeader(ResolvedColumns(headers).value.0)
    ensures IsLastNameHeader(ResolvedColumns(headers).value.1)
    ensures !IsFirstNameHeader(ResolvedColumns(headers).value.1)
    ensures ResolvedColumns(headers).value.0 != ResolvedColumns(headers).value.1
    ensures ResolvedColumns(headers).value.0 != "" && ResolvedColumns(headers).value.1 != ""
  {
    var (f, l) := ResolvedColumns(headers).value;
    if Contains(Lower(f), "first_name") { ContainsLength(Lower(f), "first_name"); }
    else { ContainsLength(Lower(f), "firstname"); }
    if Contains(Lower(l), "last_name") { ContainsLength(Lower(l), "last_name"); }
    else { ContainsLength(Lower(l), "lastname"); }
  }

  /** Mixed-case headers with the last-name column before the first-name
      column, beside a header that matches neither test. */
  lemma ResolvedColumnsPlainPair()
    ensures ResolvedColumns(["ID", "Last_Name", "First_Name"]) == Some(("First_Name", "Last_Name"))
  {
    var h := ["ID", "Last_Name", "First_Name"];
    assert IsFirstNameHeader("First_Name") by {
      assert Lower("First_Name") == "first_name";
      ContainsAt("first_name", "first_name", 0);
    }
    assert TakesLastNameSlot("Last_Name") by {
      assert Lower("Last_Name") == "last_name";
      ContainsAt("last_name", "last_name", 0);
    }
    assert !IsFirstNameHeader("ID") && !TakesLastNameSlot("ID");
    assert LastIndex(h[..2], TakesLastNameSlot) == Some(1);
  }

  /** Of two first-name columns, the later one wins. */
  lemma ResolvedColumnsLaterWins()
    ensures ResolvedColumns(["first_name", "FirstName", "last_name"]) == Some(("FirstName", "last_name"))
  {
    var h := ["first_name", "FirstName", "last_name"];
    assert IsFirstNameHeader("FirstName") by {
      assert Lower("FirstName") == "firstname";
      ContainsAt("firstname", "firstname", 0);
    }
    assert TakesLastNameSlot("last_name") by {
      assert Lower("last_name") == "last_name";
      ContainsAt("last_name", "last_name", 0);
    }
    assert LastIndex(h[..2], IsFirstNameHeader) == Some(1);
  }

  /** A header naming both only fills the first-name slot. */
  lemma ResolvedColumnsFirstTestFirst()
    ensures ResolvedColumns(["FirstName_LastName"]) == None
  {
    assert IsFirstNameHeader("FirstName_LastName") by {
      assert Lower("FirstName_LastName")[..9] == "firstname";
      ContainsAt(Lower("FirstName_LastName"), "firstname", 0);
    }
  }

  /** Headers that match neither test resolve to nothing. */
  lemma ResolvedColumnsNoMatch()
    ensures ResolvedColumns(["Name", "Surname"]) == None
  {
  }

  // --------------------------------------------------------- row selection

  /** A spreadsheet row: column name to cell text; None is a missing cell. */
  type Row = map<string, Option<string>>

  /** Every row has a cell under both resolved columns. */
  predicate HasColumns(rows: seq<Row>, fc: string, lc: string)
  {
    forall i :: 0 <= i < |rows| ==> fc in rows[i] && lc in rows[i]
  }

  /** A missing cell reads as the empty string; a present one is stripped. */
  function CellText(cell: Option<string>): string
  {
    match cell
    case None => ""
    case Some(t) => Strip(t)
  }

  datatype Names = Names(first: string, last: string)

  /** The two stripped names of a row. */
  function RowNames(row: Row, fc: string, lc: string): Names
    requires fc in row && lc in row
  {
    Names(CellText(row[fc]), CellText(row[lc]))
  }

  /** A name the row filter accepts: non-empty and not the text "nan". */
  predicate IsUsableName(s: string)
  {
    s != "" && s != "nan"
  }

  predicate IsValid(n: Names)
  {
    IsUsableName(n.first) && IsUsableName(n.last)
  }

  /** The names of the rows that pass the filter, in row order. */
  function ValidNames(rows: seq<Row>, fc: string, lc: string): seq<Names>
    requires HasColumns(rows, fc, lc)
    decreases |rows|
  {
    if rows == [] then []
    else
      var n := RowNames(rows[|rows| - 1], fc, lc);
      ValidNames(rows[..|rows| - 1], fc, lc) + (if IsValid(n) then [n] else [])
  }

  /** The positions of the rows that pass the filter, in row order. */
  function ValidRowIndices(rows: seq<Row>, fc: string, lc: string): seq<nat>
    requires HasColumns(rows, fc, lc)
    decreases |rows|
  {
    if rows == [] then []
    else
      var n := RowNames(rows[|rows| - 1], fc, lc);
      ValidRowIndices(rows[..|rows| - 1], fc, lc) + (if IsValid(n) then [|rows| - 1] else [])
  }

  /** One more row extends the kept names and positions by that row alone. */
  lemma ValidSnoc(rows: seq<Row>, fc: string, lc: string)
    requires HasColumns(rows, fc, lc) && rows != []
    ensures HasColumns(rows[..|rows| - 1], fc, lc)
    ensures var n := RowNames(rows[|rows| - 1], fc, lc);
      ValidNames(rows, fc, lc) == ValidNames(rows[..|rows| - 1], fc, lc) + (if IsValid(n) then [n] else []) &&
      ValidRowIndices(rows, fc, lc) == ValidRowIndices(rows[..|rows| - 1], fc, lc) + (if IsValid(n) then [|rows| - 1] else [])
  {
  }

  /** The kept names are those of the rows at the kept positions; the kept
      positions are strictly increasing (row order is preserved), and a row is
      kept exactly when both its names are usable. */
  lemma {:induction false} ValidNamesFollowRows(rows: seq<Row>, fc: string, lc: string)
    requires HasColumns(rows, fc, lc)
    ensures |ValidNames(rows, fc, lc)| == |ValidRowIndices(rows, fc, lc)| <= |rows|
    ensures forall k :: 0 <= k < |ValidRowIndices(rows, fc, lc)| ==>
      ValidRowIndices(rows, fc, lc)[k] < |rows| &&
      ValidNames(rows, fc, lc)[k] == RowNames(rows[ValidRowIndices(rows, fc, lc)[k]], fc, lc)
    ensures forall k, m :: 0 <= k < m < |ValidRowIndices(rows, fc, lc)| ==>
      ValidRowIndices(rows, fc, lc)[k] < ValidRowIndices(rows, fc, lc)[m]
    ensures forall i :: 0 <= i < |rows| ==>
      (i in ValidRowIndices(rows, fc, lc) <==> IsValid(RowNames(rows[i], fc, lc)))
    decreases |rows|
  {
    if rows != [] {
      var init := rows[..|rows| - 1];
      var last := |rows| - 1;
      ValidSnoc(rows, fc, lc);
      ValidNamesFollowRows(init, fc, lc);
      var ns0, ix0 := ValidNames(init, fc, lc), ValidRowIndices(init, fc, lc);
      var ns, ix := ValidNames(rows, fc, lc), ValidRowIndices(rows, fc, lc);
      var n := RowNames(rows[last], fc, lc);
      assert ns == ns0 + (if IsValid(n) then [n] else []);
      assert ix == ix0 + (if IsValid(n) then [last] else []);
      forall k | 0 <= k < |ix|
        ensures ix[k] < |rows| && ns[k] == RowNames(rows[ix[k]], fc, lc)
      {
        if k < |ix0| {
          assert ix[k] == ix0[k] && ns[k] == ns0[k];
          assert init[ix0[k]] == rows[ix0[k]];
        } else {
          assert ix[k] == last && ns[k] == n;
        }
      }
      forall i | 0 <= i < |rows|
        ensures i in ix <==> IsValid(RowNames(rows[i], fc, lc))
      {
        SnocMembership(ix0, last, IsValid(n), i);
        if i < last {
          assert init[i] == rows[i];
        }
      }
    }
  }

  /** Membership in a list of positions below `x`, optionally extended by `x`. */
  lemma SnocMembership(ix0: seq<nat>, x: nat, b: bool, i: int)
    requires forall k :: 0 <= k < |ix0| ==> ix0[k] < x
    ensures i in ix0 + (if b then [x] else []) <==> (i in ix0 || (b && i == x))
    ensures i == x ==> i !in ix0
  {
  }

  /** A row with a missing or whitespace-only name cell contributes nothing. */
  lemma BlankCellIsRejected(cell: Option<string>)
    requires cell.None? || AllSpace(cell.value)
    ensures !IsUsableName(CellText(cell))
  {
    if cell.Some? {
      StripAllSpace(cell.value);
    }
  }

  // ------------------------------------------------------------ Scopus URLs

  // The fixed text of the Scopus template, one query parameter at a time.
  // The two 32-digit identifiers are written as two joined literals only to
  // keep the verifier's terms for each literal small.
  const ScopusEndpoint: UriText := "https://www.scopus.com"
  const ScopusPath: UriText := "/results/authorNamesList.uri"
  const ScopusSort: UriText := "?sort=count-f"
  const ScopusSrc: UriText := "&src=al"
  const ScopusSidKey: UriText := "&sid="
  const ScopusSid: UriText := "019d6a5f04c0d727" + "df785a0d224cdb9a"
  const ScopusSot: UriText := "&sot=al"
  const ScopusSdt: UriText := "&sdt=al"
  const ScopusSl: UriText := "&sl=42"
  const ScopusQueryKey: UriText := "&s="
  const ScopusAuthLast: UriText := "AUTHLASTNAME%28"
  const ScopusAndFirst: UriText := "%29+AND+AUTHFIRST%28"
  const ScopusCloseFirst: UriText := "%29"
  const ScopusSt1: UriText := "&st1="
  const ScopusSt2: UriText := "&st2="
  const ScopusOrcidId: UriText := "&orcidId="
  const ScopusSelection: UriText := "&selectionPageSearch=anl"
  const ScopusReselect: UriText := "&reselectAuthor=false"
  const ScopusActive: UriText := "&activeFlag=true"
  const ScopusShowDocument: UriText := "&showDocument=false"
  const ScopusPageSize: UriText := "&resultsPerPage=20"
  const ScopusOffset: UriText := "&offset=1"
  const ScopusJtp: UriText := "&jtp=false"
  const ScopusCurrentPage: UriText := "&currentPage=1"
  const ScopusSelectionCount: UriText := "&previousSelectionCount=0"
  const ScopusTooMany: UriText := "&tooManySelections=false"
  const ScopusResultCount: UriText := "&previousResultCount=0"
  const ScopusLifeSciences: UriText := "&authSubject=LFSC"
  const ScopusHealthSciences: UriText := "&authSubject=HLSC"
  const ScopusPhysicalSciences: UriText := "&authSubject=PHSC"
  const ScopusSocialSciences: UriText := "&authSubject=SOSC"
  const ScopusExact: UriText := "&exactAuthorSearch=false"
  const ScopusFullList: UriText := "&showFullList=false"
  const ScopusPreferredName: UriText := "&authorPreferredName="
  const ScopusOriginKey: UriText := "&origin="
  const ScopusOrigin: UriText := "searchauthorfreelookup"
  const ScopusAffiliation: UriText := "&affiliationId="
  const ScopusTxGidKey: UriText := "&txGid="
  const ScopusTxGid: UriText := "d17770acfb768195" + "59b5a71a877fb194"

  /** Everything before the search expression's value. */
  const ScopusPrefix: string :=
    ScopusEndpoint + ScopusPath + ScopusSort + ScopusSrc + ScopusSidKey + ScopusSid +
    ScopusSot + ScopusSdt + ScopusSl + ScopusQueryKey

  /** Everything before the first last-name slot. */
  const ScopusHead: string := ScopusPrefix + ScopusAuthLast

  /** Between the first first-name slot and the second last-name slot. */
  const ScopusMid: string := ScopusCloseFirst + ScopusSt1

  /** Everything after the `orcidId` parameter's key. */
  const ScopusRest: string :=
    ScopusSelection + ScopusReselect + ScopusActive + ScopusShowDocument + ScopusPageSize +
    ScopusOffset + ScopusJtp + ScopusCurrentPage + ScopusSelectionCount + ScopusTooMany +
    ScopusResultCount + ScopusLifeSciences + ScopusHealthSciences + ScopusPhysicalSciences +
    ScopusSocialSciences + ScopusExact + ScopusFullList + ScopusPreferredName +
    ScopusOriginKey + ScopusOrigin + ScopusAffiliation + ScopusTxGidKey + ScopusTxGid

  /** Everything after the second first-name slot. */
  const ScopusTail: string := ScopusOrcidId + ScopusRest

  lemma UriTextConcat(a: string, b: string)
    requires IsUriText(a) && IsUriText(b)
    ensures IsUriText(a + b)
  {
    assert forall i :: 0 <= i < |b| ==> (a + b)[|a| + i] == b[i];
  }

  /** All the fixed text of the Scopus template consists of URI characters. */
  lemma ScopusFixedTextIsUriText()
    ensures IsUriText(ScopusHead) && IsUriText(ScopusAndFirst) && IsUriText(ScopusMid)
    ensures IsUriText(ScopusSt2) && IsUriText(ScopusTail)
  {
    var p := ScopusEndpoint;
    UriTextConcat(p, ScopusPath); p := p + ScopusPath;
    UriTextConcat(p, ScopusSort); p := p + ScopusSort;
    UriTextConcat(p, ScopusSrc); p := p + ScopusSrc;
    UriTextConcat(p, ScopusSidKey); p := p + ScopusSidKey;
    UriTextConcat(p, ScopusSid); p := p + ScopusSid;
    UriTextConcat(p, ScopusSot); p := p + ScopusSot;
    UriTextConcat(p, ScopusSdt); p := p + ScopusSdt;
    UriTextConcat(p, ScopusSl); p := p + ScopusSl;
    UriTextConcat(p, ScopusQueryKey); p := p + ScopusQueryKey;
    assert p == ScopusPrefix;
    UriTextConcat(ScopusPrefix, ScopusAuthLast);
    UriTextConcat(ScopusCloseFirst, ScopusSt1);
    var r := ScopusSelection;
    UriTextConcat(r, ScopusReselect); r := r + ScopusReselect;
    UriTextConcat(r, ScopusActive); r := r + ScopusActive;
    UriTextConcat(r, ScopusShowDocument); r := r + ScopusShowDocument;
    UriTextConcat(r, ScopusPageSize); r := r + ScopusPageSize;
    UriTextConcat(r, ScopusOffset); r := r + ScopusOffset;
    UriTextConcat(r, ScopusJtp); r := r + ScopusJtp;
    UriTextConcat(r, ScopusCurrentPage); r := r + ScopusCurrentPage;
    UriTextConcat(r, ScopusSelectionCount); r := r + ScopusSelectionCount;
    UriTextConcat(r, ScopusTooMany); r := r + ScopusTooMany;
    UriTextConcat(r, ScopusResultCount); r := r + ScopusResultCount;
    UriTextConcat(r, ScopusLifeSciences); r := r + ScopusLifeSciences;
    UriTextConcat(r, ScopusHealthSciences); r := r + ScopusHealthSciences;
    UriTextConcat(r, ScopusPhysicalSciences); r := r + ScopusPhysicalSciences;
    UriTextConcat(r, ScopusSocialSciences); r := r + ScopusSocialSciences;
    UriTextConcat(r, ScopusExact); r := r + ScopusExact;
    UriTextConcat(r, ScopusFullList); r := r + ScopusFullList;
    UriTextConcat(r, ScopusPreferredName); r := r + ScopusPreferredName;
    UriTextConcat(r, ScopusOriginKey); r := r + ScopusOriginKey;
    UriTextConcat(r, ScopusOrigin); r := r + ScopusOrigin;
    UriTextConcat(r, ScopusAffiliation); r := r + ScopusAffiliation;
    UriTextConcat(r, ScopusTxGidKey); r := r + ScopusTxGidKey;
    UriTextConcat(r, ScopusTxGid); r := r + ScopusTxGid;
    assert r == ScopusRest;
    UriTextConcat(ScopusOrcidId, ScopusRest);
  }

  /** The four-slot layout of the Scopus template: fixed text `a`, the last
      name, `b`, the first name, `c`, the last name, `d`, the first name, `e`. */
  function Fill(a: string, b: string, c: string, d: string, e: string,
                first: string, last: string): string
  {
    a + last + b + first + c + last + d + first + e
  }

  /** The Scopus author search for one name pair; both names are spliced in
      as they are, without any escaping. */
  function ScopusUrl(first: string, last: string): string
  {
    Fill(ScopusHead, ScopusAndFirst, ScopusMid, ScopusSt2, ScopusTail, first, last)
  }

  /** Where the four name slots of a filled template start, for fixed texts
      `a`, `b`, `c`, `d` and names of lengths `fl` (first) and `ll` (last). */
  function Slots(a: string, b: string, c: string, d: string, fl: nat, ll: nat): (nat, nat, nat, nat)
  {
    var p1 := |a|;
    var p2 := p1 + ll + |b|;
    var p3 := p2 + fl + |c|;
    var p4 := p3 + ll + |d|;
    (p1, p2, p3, p4)
  }

  /** Position `i` lies inside one of the four slots starting at `p`. */
  predicate InSlot(p: (nat, nat, nat, nat), i: int, fl: nat, ll: nat)
  {
    (p.0 <= i < p.0 + ll) || (p.1 <= i < p.1 + fl) || (p.2 <= i < p.2 + ll) || (p.3 <= i < p.3 + fl)
  }

  /** `url` reads, from left to right: `a`, the last name, `b`, the first
      name, `c`, the last name, `d`, the first name, `e`. */
  predicate IsFilled(url: string, a: string, b: string, c: string, d: string, e: string,
                     first: string, last: string)
  {
    var (p1, p2, p3, p4) := Slots(a, b, c, d, |first|, |last|);
    |url| == |a| + |b| + |c| + |d| + |e| + 2 * |first| + 2 * |last| &&
    url[..p1] == a && url[p1..p1 + |last|] == last && url[p1 + |last|..p2] == b &&
    url[p2..p2 + |first|] == first && url[p2 + |first|..p3] == c &&
    url[p3..p3 + |last|] == last && url[p3 + |last|..p4] == d &&
    url[p4..p4 + |first|] == first && url[p4 + |first|..] == e
  }

  lemma FillSlots(a: string, b: string, c: string, d: string, e: string, first: string, last: string)
    ensures IsFilled(Fill(a, b, c, d, e, first, last), a, b, c, d, e, first, last)
  {
    FillFrontSlots(a, b, c, d, e, first, last);
    FillBackSlots(a, b, c, d, e, first, last);
  }

  /** The first three fixed texts and the first two name slots. */
  lemma FillFrontSlots(a: string, b: string, c: string, d: string, e: string, first: string, last: string)
    ensures var url := Fill(a, b, c, d, e, first, last);
      var (p1, p2, p3, p4) := Slots(a, b, c, d, |first|, |last|);
      p3 <= |url| &&
      url[..p1] == a && url[p1..p1 + |last|] == last && url[p1 + |last|..p2] == b &&
      url[p2..p2 + |first|] == first && url[p2 + |first|..p3] == c
  {
    var url := Fill(a, b, c, d, e, first, last);
    var u4 := a + last + b + first + c;
    assert url == u4 + (last + d + first + e);
    assert url[..|u4|] == u4;
    var p1, p2 := |a|, |a| + |last| + |b|;
    assert u4[..p1] == a;
    assert u4[p1..p1 + |last|] == last;
    assert u4[p1 + |last|..p2] == b;
    assert u4[p2..p2 + |first|] == first;
    assert u4[p2 + |first|..] == c;
  }

  /** The last two name slots and the last two fixed texts. */
  lemma FillBackSlots(a: string, b: string, c: string, d: string, e: string, first: string, last: string)
    ensures var url := Fill(a, b, c, d, e, first, last);
      var (p1, p2, p3, p4) := Slots(a, b, c, d, |first|, |last|);
      |url| == |a| + |b| + |c| + |d| + |e| + 2 * |first| + 2 * |last| &&
      url[p3..p3 + |last|] == last && url[p3 + |last|..p4] == d &&
      url[p4..p4 + |first|] == first && url[p4 + |first|..] == e
  {
    var url := Fill(a, b, c, d, e, first, last);
    var u4 := a + last + b + first + c;
    var v := last + d + first + e;
    assert url == u4 + v;
    assert url[|u4|..] == v;
    var q := |u4|;
    assert v[..|last|] == last;
    assert v[|last|..|last| + |d|] == d;
    assert v[|last| + |d|..|last| + |d| + |first|] == first;
    assert v[|last| + |d| + |first|..] == e;
    assert url[q..q + |last|] == v[..|last|];
    assert url[q + |last|..q + |last| + |d|] == v[|last|..|last| + |d|];
    assert url[q + |last| + |d|..q + |last| + |d| + |first|] == v[|last| + |d|..|last| + |d| + |first|];
    assert url[q + |last| + |d| + |first|..] == v[|last| + |d| + |first|..];
  }

  /** The last name fills the `AUTHLASTNAME` and `st1` slots and the first name
      the `AUTHFIRST` and `st2` slots, verbatim; between and around them stands
      the fixed text of the template. */
  lemma ScopusUrlSlots(first: string, last: string)
    ensures IsFilled(ScopusUrl(first, last), ScopusHead, ScopusAndFirst, ScopusMid, ScopusSt2, ScopusTail,
                     first, last)
  {
    FillSlots(ScopusHead, ScopusAndFirst, ScopusMid, ScopusSt2, ScopusTail, first, last);
  }

  /** `u` and `v` have the same length and the same characters outside the
      four slots starting at `p`. */
  predicate AgreeOutsideSlots(u: string, v: string, p: (nat, nat, nat, nat), fl: nat, ll: nat)
  {
    |u| == |v| && forall i :: 0 <= i < |u| && !InSlot(p, i, fl, ll) ==> u[i] == v[i]
  }

  /** Every character outside the name slots is fixed: two Scopus URLs for
      names of the same lengths agree everywhere except in the slots. */
  lemma ScopusUrlFixedText(first: string, last: string, first': string, last': string)
    requires |first| == |first'| && |last| == |last'|
    ensures AgreeOutsideSlots(ScopusUrl(first, last), ScopusUrl(first', last'),
                              Slots(ScopusHead, ScopusAndFirst, ScopusMid, ScopusSt2, |first|, |last|),
                              |first|, |last|)
  {
    FillFixedText(ScopusHead, ScopusAndFirst, ScopusMid, ScopusSt2, ScopusTail, first, last, first', last');
  }

  lemma FillFixedText(a: string, b: string, c: string, d: string, e: string,
                      first: string, last: string, first': string, last': string)
    requires |first| == |first'| && |last| == |last'|
    ensures AgreeOutsideSlots(Fill(a, b, c, d, e, first, last), Fill(a, b, c, d, e, first', last'),
                              Slots(a, b, c, d, |first|, |last|), |first|, |last|)
  {
    var u, v := Fill(a, b, c, d, e, first, last), Fill(a, b, c, d, e, first', last');
    var p := Slots(a, b, c, d, |first|, |last|);
    var (p1, p2, p3, p4) := p;
    var q1, q2, q3, q4 := p1 + |last|, p2 + |first|, p3 + |last|, p4 + |first|;
    forall i | 0 <= i < |u| && !InSlot(p, i, |first|, |last|)
      ensures u[i] == v[i]
    {
      if i < p1 { assert u[i] == a[i] == v[i]; }
      else if i < p2 { assert u[i] == b[i - q1] == v[i]; }
      else if i < p3 { assert u[i] == c[i - q2] == v[i]; }
      else if i < p4 { assert u[i] == d[i - q3] == v[i]; }
      else { assert u[i] == e[i - q4] == v[i]; }
    }
  }

  /** The names appear unescaped in the search expression and the two
      tracking parameters, e.g. `AUTHLASTNAME%28Lovelace%29`. */
  lemma ScopusUrlEmbedsNames(first: string, last: string)
    ensures Contains(ScopusUrl(first, last), "AUTHLASTNAME%28" + last + "%29+AND+AUTHFIRST%28" + first + "%29")
    ensures Contains(ScopusUrl(first, last), "&st1=" + last + "&st2=" + first + "&orcidId=")
  {
    FillEmbeds(ScopusPrefix, ScopusAuthLast, ScopusAndFirst, ScopusCloseFirst, ScopusSt1, ScopusSt2,
               ScopusOrcidId, ScopusRest, first, last);
  }

  /** With `a`, `c` and `e` split in two, the text from the second part of
      `a` to the first part of `c`, and the text from the second part of `c`
      to the first part of `e`, occur in the filled template. */
  lemma FillEmbeds(a0: string, a1: string, b: string, c0: string, c1: string, d: string,
                   e0: string, e1: string, first: string, last: string)
    ensures Contains(Fill(a0 + a1, b, c0 + c1, d, e0 + e1, first, last), a1 + last + b + first + c0)
    ensures Contains(Fill(a0 + a1, b, c0 + c1, d, e0 + e1, first, last), c1 + last + d + first + e0)
  {
    var url := Fill(a0 + a1, b, c0 + c1, d, e0 + e1, first, last);
    var pat1 := a1 + last + b + first + c0;
    var pat2 := c1 + last + d + first + e0;
    assert url == a0 + pat1 + (c1 + last + d + first + e0 + e1);
    assert url == a0 + a1 + last + b + first + c0 + pat2 + e1;
    ContainsAt(url, pat1, |a0|);
    ContainsAt(url, pat2, |a0 + a1 + last + b + first + c0|);
  }

  /** A URI character is never a line feed. */
  lemma UriTextHasNoLineFeed(s: string)
    requires IsUriText(s)
    ensures '\n' !in s
  {
  }

  /** The Scopus URL is URI text exactly when both names are: the template
      itself is, and the names are spliced in without escaping. */
  lemma ScopusUrlIsUriText(first: string, last: string)
    ensures IsUriText(ScopusUrl(first, last)) <==> IsUriText(first) && IsUriText(last)
  {
    ScopusFixedTextIsUriText();
    FillIsUriText(ScopusHead, ScopusAndFirst, ScopusMid, ScopusSt2, ScopusTail, first, last);
  }

  lemma FillIsUriText(a: string, b: string, c: string, d: string, e: string, first: string, last: string)
    requires IsUriText(a) && IsUriText(b) && IsUriText(c) && IsUriText(d) && IsUriText(e)
    ensures IsUriText(Fill(a, b, c, d, e, first, last)) <==> IsUriText(first) && IsUriText(last)
  {
    if IsUriText(first) && IsUriText(last) {
      FillOfUriText(a, b, c, d, e, first, last);
    }
    if IsUriText(Fill(a, b, c, d, e, first, last)) {
      FillSlots(a, b, c, d, e, first, last);
      var (p1, p2, p3, p4) := Slots(a, b, c, d, |first|, |last|);
      UriTextSlice(Fill(a, b, c, d, e, first, last), p1, p1 + |last|);
      UriTextSlice(Fill(a, b, c, d, e, first, last), p2, p2 + |first|);
    }
  }

  lemma FillOfUriText(a: string, b: string, c: string, d: string, e: string, first: string, last: string)
    requires IsUriText(a) && IsUriText(b) && IsUriText(c) && IsUriText(d) && IsUriText(e)
    requires IsUriText(first) && IsUriText(last)
    ensures IsUriText(Fill(a, b, c, d, e, first, last))
  {
    UriTextConcat(a, last);
    UriTextConcat(a + last, b);
    UriTextConcat(a + last + b, first);
    UriTextConcat(a + last + b + first, c);
    UriTextConcat(a + last + b + first + c, last);
    UriTextConcat(a + last + b + first + c + last, d);
    UriTextConcat(a + last + b + first + c + last + d, first);
    UriTextConcat(a + last + b + first + c + last + d + first, e);
  }

  lemma UriTextSlice(s: string, i: nat, j: nat)
    requires IsUriText(s) && i <= j <= |s|
    ensures IsUriText(s[i..j])
  {
    assert forall k :: 0 <= k < j - i ==> s[i..j][k] == s[i + k];
  }

  /** A Scopus URL holds a line feed exactly when one of the names does. */
  lemma ScopusUrlLineFeed(first: string, last: string)
    ensures '\n' in ScopusUrl(first, last) <==> '\n' in first || '\n' in last
  {
    ScopusFixedTextIsUriText();
    FillLineFeed(ScopusHead, ScopusAndFirst, ScopusMid, ScopusSt2, ScopusTail, first, last);
  }

  lemma FillLineFeed(a: string, b: string, c: string, d: string, e: string, first: string, last: string)
    requires IsUriText(a) && IsUriText(b) && IsUriText(c) && IsUriText(d) && IsUriText(e)
    ensures '\n' in Fill(a, b, c, d, e, first, last) <==> '\n' in first || '\n' in last
  {
    UriTextHasNoLineFeed(a);
    UriTextHasNoLineFeed(b);
    UriTextHasNoLineFeed(c);
    UriTextHasNoLineFeed(d);
    UriTextHasNoLineFeed(e);
  }

  // ------------------------------------------------------------- ORCID URLs

  const OrcidHost: UriText := "https://orcid.org"
  const OrcidSearchPath: UriText := "/orcid-search/search"
  const OrcidQueryKey: UriText := "?searchQuery="

  /** The fixed text in front of the query value. */
  const OrcidPrefix: string := OrcidHost + OrcidSearchPath + OrcidQueryKey

  /** The ORCID search for one name pair: the prefix followed by
      `quote(first + " " + last)`. */
  function OrcidUrl(first: string, last: string): string
  {
    OrcidPrefix + QuoteText(first + " " + last)
  }

  /** The query value of an ORCID URL is percent-encoded and decodes to
      exactly `first + " " + last`. */
  lemma OrcidUrlDecodes(first: string, last: string)
    ensures |OrcidPrefix| <= |OrcidUrl(first, last)|
    ensures OrcidUrl(first, last)[..|OrcidPrefix|] == OrcidPrefix
    ensures IsPercentEncoded(OrcidUrl(first, last)[|OrcidPrefix|..])
    ensures UnquoteText(OrcidUrl(first, last)[|OrcidPrefix|..]) == Some(first + " " + last)
  {
    var q := QuoteText(first + " " + last);
    assert OrcidUrl(first, last)[|OrcidPrefix|..] == q;
    QuoteIsPercentEncoded(Utf8Encode(first + " " + last));
    QuoteTextRoundTrip(first + " " + last);
  }

  /** An ORCID URL consists only of URI characters, whatever the names, so in
      particular it never holds a line feed. */
  lemma OrcidUrlIsUriText(first: string, last: string)
    ensures IsUriText(OrcidUrl(first, last))
    ensures '\n' !in OrcidUrl(first, last)
  {
    UriTextConcat(OrcidHost, OrcidSearchPath);
    UriTextConcat(OrcidHost + OrcidSearchPath, OrcidQueryKey);
    QuoteIsUriText(Utf8Encode(first + " " + last));
    UriTextConcat(OrcidPrefix, QuoteText(first + " " + last));
    UriTextHasNoLineFeed(OrcidUrl(first, last));
  }

  /** Two name pairs give the same ORCID URL exactly when they join, with one
      space between, to the same query text. */
  lemma OrcidUrlInjective(first: string, last: string, first': string, last': string)
    ensures OrcidUrl(first, last) == OrcidUrl(first', last') <==> first + " " + last == first' + " " + last'
  {
    var q, q' := QuoteText(first + " " + last), QuoteText(first' + " " + last');
    if OrcidUrl(first, last) == OrcidUrl(first', last') {
      assert OrcidUrl(first, last)[|OrcidPrefix|..] == q;
      assert OrcidUrl(first', last')[|OrcidPrefix|..] == q';
      QuoteTextInjective(first + " " + last, first' + " " + last');
    }
  }

  /** The split between first and last name is lost: a space inside a name
      gives the same ORCID search as a space between the names. */
  lemma OrcidUrlAmbiguity()
    ensures OrcidUrl("Mary Ann", "Smith") == OrcidUrl("Mary", "Ann Smith")
  {
    assert "Mary Ann" + " " + "Smith" == "Mary" + " " + "Ann Smith";
  }

  // --------------------------------------------------------- file contents

  /** The text written to an output file: each URL followed by a line feed. */
  function FileContents(urls: seq<string>): string
    decreases |urls|
  {
    if urls == [] then ""
    else FileContents(urls[..|urls| - 1]) + urls[|urls| - 1] + "\n"
  }

  /** The write loop: one `url + "\n"` per URL, in list order. */
  method WriteUrls(urls: seq<string>) returns (contents: string)
    ensures contents == FileContents(urls)
  {
    contents := "";
    var i := 0;
    while i < |urls|
      invariant 0 <= i <= |urls|
      invariant contents == FileContents(urls[..i])
    {
      assert urls[..i + 1][..i] == urls[..i];
      contents := contents + urls[i] + "\n";
      i := i + 1;
    }
    assert urls[..i] == urls;
  }

  /** The contents of a list with one more URL in front. */
  lemma {:induction false} FileContentsCons(u: string, urls: seq<string>)
    ensures FileContents([u] + urls) == u + "\n" + FileContents(urls)
    decreases |urls|
  {
    if urls != [] {
      var init := urls[..|urls| - 1];
      assert ([u] + urls)[..|urls|] == [u] + init;
      FileContentsCons(u, init);
    }
  }

  /** Reading an output file back line by line gives the URL list exactly
      when no URL holds a line feed of its own. */
  lemma {:induction false} FileContentsLines(urls: seq<string>)
    ensures SplitLines(FileContents(urls)) == urls <==>
      forall i :: 0 <= i < |urls| ==> '\n' !in urls[i]
    decreases |urls|
  {
    if SplitLines(FileContents(urls)) == urls {
      SplitLinesHaveNoLineFeed(FileContents(urls));
    }
    if (forall i :: 0 <= i < |urls| ==> '\n' !in urls[i]) && urls != [] {
      FileContentsCons(urls[0], urls[1..]);
      assert [urls[0]] + urls[1..] == urls;
      SplitLinesCons(urls[0], FileContents(urls[1..]));
      FileContentsLines(urls[1..]);
      assert forall i :: 0 <= i < |urls[1..]| ==> '\n' !in urls[1..][i] by {
        forall i | 0 <= i < |urls[1..]| ensures '\n' !in urls[1..][i] {
          assert urls[1..][i] == urls[i + 1];
        }
      }
    }
  }

  /** An output file has one line feed per URL, plus those inside the URLs. */
  lemma {:induction false} FileContentsLineFeeds(urls: seq<string>)
    ensures Count(FileContents(urls), '\n') == |urls| + SumCounts(urls, '\n')
    decreases |urls|
  {
    if urls != [] {
      var init := urls[..|urls| - 1];
      FileContentsLineFeeds(init);
      CountAppend(FileContents(init) + urls[|urls| - 1], "\n", '\n');
      CountAppend(FileContents(init), urls[|urls| - 1], '\n');
      assert Count("\n", '\n') == 1 by { assert "\n"[..0] == ""; }
    }
  }

  /** The occurrences of `c` in all of `urls` together. */
  function SumCounts(urls: seq<string>, c: char): nat
    decreases |urls|
  {
    if urls == [] then 0 else SumCounts(urls[..|urls| - 1], c) + Count(urls[|urls| - 1], c)
  }

  /** No URL holding `c`, none of it in the total. */
  lemma {:induction false} SumCountsAbsent(urls: seq<string>, c: char)
    requires forall i :: 0 <= i < |urls| ==> c !in urls[i]
    ensures SumCounts(urls, c) == 0
    decreases |urls|
  {
    if urls != [] {
      CountAbsent(urls[|urls| - 1], c);
      SumCountsAbsent(urls[..|urls| - 1], c);
    }
  }

  // ----------------------------------------------------------- whole run

  /** What a successful run produces: the two URL lists and the two files. */
  datatype Outcome = Outcome(scopusUrls: seq<string>, orcidUrls: seq<string>,
                             scopusFile: string, orcidFile: string)

  /** Every row has a cell under every header (as in a data frame). */
  predicate IsTable(headers: seq<string>, rows: seq<Row>)
  {
    forall i, h :: 0 <= i < |rows| && h in headers ==> h in rows[i]
  }

  /** One URL per name pair, in the same order. */
  function RenderAll(names: seq<Names>, render: (string, string) -> string): seq<string>
    decreases |names|
  {
    if names == [] then []
    else RenderAll(names[..|names| - 1], render) + [render(names[|names| - 1].first, names[|names| - 1].last)]
  }

  /** Entry `k` of the URL list is rendered from name pair `k`. */
  lemma {:induction false} RenderAllAt(names: seq<Names>, render: (string, string) -> string)
    ensures |RenderAll(names, render)| == |names|
    ensures forall k :: 0 <= k < |names| ==>
      RenderAll(names, render)[k] == render(names[k].first, names[k].last)
    decreases |names|
  {
    if names != [] {
      var init := names[..|names| - 1];
      RenderAllAt(init, render);
      assert forall k :: 0 <= k < |init| ==> init[k] == names[k];
    }
  }

  lemma RenderAllSnoc(names: seq<Names>, n: Names, render: (string, string) -> string)
    ensures RenderAll(names + [n], render) == RenderAll(names, render) + [render(n.first, n.last)]
  {
    assert (names + [n])[..|names|] == names;
  }

  /** Taking one more row extends the kept names by that row's names exactly
      when they pass the filter. */
  lemma ValidStep(rows: seq<Row>, i: nat, fc: string, lc: string)
    requires HasColumns(rows, fc, lc) && i < |rows|
    ensures HasColumns(rows[..i], fc, lc) && HasColumns(rows[..i + 1], fc, lc)
    ensures var n := RowNames(rows[i], fc, lc);
      ValidNames(rows[..i + 1], fc, lc) == ValidNames(rows[..i], fc, lc) + (if IsValid(n) then [n] else [])
  {
    assert rows[..i + 1][..i] == rows[..i];
    ValidSnoc(rows[..i + 1], fc, lc);
  }

  /** The row loop: one Scopus and one ORCID URL per row whose names are
      usable, appended in row order. */
  method GenerateUrls(rows: seq<Row>, fc: string, lc: string,
                      scopusUrl: (string, string) -> string, orcidUrl: (string, string) -> string)
    returns (scopusUrls: seq<string>, orcidUrls: seq<string>)
    requires HasColumns(rows, fc, lc)
    ensures scopusUrls == RenderAll(ValidNames(rows, fc, lc), scopusUrl)
    ensures orcidUrls == RenderAll(ValidNames(rows, fc, lc), orcidUrl)
  {
    scopusUrls, orcidUrls := [], [];
    ghost var names: seq<Names> := [];
    var i := 0;
    while i < |rows|
      invariant 0 <= i <= |rows|
      invariant HasColumns(rows[..i], fc, lc)
      invariant names == ValidNames(rows[..i], fc, lc)
      invariant scopusUrls == RenderAll(names, scopusUrl) && orcidUrls == RenderAll(names, orcidUrl)
    {
      var row := rows[i];
      ValidStep(rows, i, fc, lc);
      var firstName := CellText(row[fc]);
      var lastName := CellText(row[lc]);
      ghost var n := RowNames(row, fc, lc);
      assert n == Names(firstName, lastName);
      if firstName != "" && lastName != "" && firstName != "nan" && lastName != "nan" {
        RenderAllSnoc(names, n, scopusUrl);
        RenderAllSnoc(names, n, orcidUrl);
        scopusUrls := scopusUrls + [scopusUrl(firstName, lastName)];
        orcidUrls := orcidUrls + [orcidUrl(firstName, lastName)];
        names := names + [n];
      }
      i := i + 1;
    }
    assert rows[..i] == rows;
  }

  /** `extract_names_and_generate_urls`: None (nothing built, nothing written)
      when a name column is missing; otherwise the two URL lists, one entry
      per usable row in row order, and the two file contents. */
  method ExtractNamesAndGenerateUrls(headers: seq<string>, rows: seq<Row>)
    returns (result: Option<Outcome>)
    requires IsTable(headers, rows)
    ensures result.None? <==> ResolvedColumns(headers).None?
    ensures result.Some? ==>
      var (fc, lc) := ResolvedColumns(headers).value;
      HasColumns(rows, fc, lc) &&
      var names := ValidNames(rows, fc, lc);
      var out := result.value;
      out.scopusUrls == RenderAll(names, ScopusUrl) && out.orcidUrls == RenderAll(names, OrcidUrl) &&
      out.scopusFile == FileContents(out.scopusUrls) &&
      out.orcidFile == FileContents(out.orcidUrls)
  {
    var cols := ResolveColumns(headers);
    if cols.None? {
      return None;
    }
    var (fc, lc) := cols.value;
    var scopusUrls, orcidUrls := GenerateUrls(rows, fc, lc, ScopusUrl, OrcidUrl);
    var scopusFile := WriteUrls(scopusUrls);
    var orcidFile := WriteUrls(orcidUrls);
    return Some(Outcome(scopusUrls, orcidUrls, scopusFile, orcidFile));
  }

  /** After the row loop, for any two URL builders: both lists have one entry
      per kept row, entry `k` of each is built from the names of the `k`-th
      kept row, the kept rows are in input order, and a row is kept exactly
      when both of its stripped names are usable. */
  lemma UrlListsFollowRows(rows: seq<Row>, fc: string, lc: string,
                           scopusUrl: (string, string) -> string, orcidUrl: (string, string) -> string)
    requires HasColumns(rows, fc, lc)
    ensures var ix := ValidRowIndices(rows, fc, lc);
      var s := RenderAll(ValidNames(rows, fc, lc), scopusUrl);
      var o := RenderAll(ValidNames(rows, fc, lc), orcidUrl);
      |s| == |o| == |ix| <= |rows| &&
      (forall k :: 0 <= k < |ix| ==>
        ix[k] < |rows| &&
        s[k] == scopusUrl(CellText(rows[ix[k]][fc]), CellText(rows[ix[k]][lc])) &&
        o[k] == orcidUrl(CellText(rows[ix[k]][fc]), CellText(rows[ix[k]][lc]))) &&
      (forall k, m :: 0 <= k < m < |ix| ==> ix[k] < ix[m]) &&
      (forall i :: 0 <= i < |rows| ==>
        (i in ix <==> IsUsableName(CellText(rows[i][fc])) && IsUsableName(CellText(rows[i][lc]))))
  {
    ValidNamesFollowRows(rows, fc, lc);
    RenderAllAt(ValidNames(rows, fc, lc), scopusUrl);
    RenderAllAt(ValidNames(rows, fc, lc), orcidUrl);
  }

  /** The ORCID file always reads back, split at its line feeds, as its URL
      list: one line per URL and one line feed per URL. */
  lemma OrcidFileReadsBack(names: seq<Names>)
    ensures var urls := RenderAll(names, OrcidUrl);
      SplitLines(FileContents(urls)) == urls && Count(FileContents(urls), '\n') == |urls|
  {
    var urls := RenderAll(names, OrcidUrl);
    RenderAllAt(names, OrcidUrl);
    forall k | 0 <= k < |urls| ensures '\n' !in urls[k] {
      OrcidUrlIsUriText(names[k].first, names[k].last);
    }
    FileContentsLines(urls);
    FileContentsLineFeeds(urls);
    SumCountsAbsent(urls, '\n');
  }

  /** The Scopus file, whose names go in unescaped, reads back as its URL list
      exactly when no kept name holds a line feed. The split is at `'\n'`
      only: a carriage return or other line separator inside a name is not
      seen by it, and the code itself reads nothing back. */
  lemma ScopusFileReadsBack(names: seq<Names>)
    ensures SplitLines(FileContents(RenderAll(names, ScopusUrl))) == RenderAll(names, ScopusUrl) <==>
      forall k :: 0 <= k < |names| ==> '\n' !in names[k].first && '\n' !in names[k].last
  {
    ScopusUrlsLineFeed(names);
    FileReadsBackIff(RenderAll(names, ScopusUrl), names);
  }

  /** Scopus URL `k` holds a line feed exactly when name pair `k` does. */
  lemma ScopusUrlsLineFeed(names: seq<Names>)
    ensures |RenderAll(names, ScopusUrl)| == |names|
    ensures forall k :: 0 <= k < |names| ==>
      ('\n' in RenderAll(names, ScopusUrl)[k] <==> '\n' in names[k].first || '\n' in names[k].last)
  {
    var urls := RenderAll(names, ScopusUrl);
    RenderAllAt(names, ScopusUrl);
    forall k | 0 <= k < |names|
      ensures '\n' in urls[k] <==> '\n' in names[k].first || '\n' in names[k].last
    {
      var n := names[k];
      assert urls[k] == ScopusUrl(n.first, n.last);
      ScopusUrlLineFeed(n.first, n.last);
    }
  }

  /** When no kept name holds a line feed, the Scopus file has exactly one
      line feed per URL. */
  lemma ScopusFileLineFeeds(names: seq<Names>)
    requires forall k :: 0 <= k < |names| ==> '\n' !in names[k].first && '\n' !in names[k].last
    ensures Count(FileContents(RenderAll(names, ScopusUrl)), '\n') == |RenderAll(names, ScopusUrl)|
  {
    ScopusUrlsWithoutLineFeed(names);
    FileLineFeedsOnePerUrl(RenderAll(names, ScopusUrl));
  }

  /** Names without line feeds give Scopus URLs without line feeds. */
  lemma ScopusUrlsWithoutLineFeed(names: seq<Names>)
    requires forall k :: 0 <= k < |names| ==> '\n' !in names[k].first && '\n' !in names[k].last
    ensures |RenderAll(names, ScopusUrl)| == |names|
    ensures forall k :: 0 <= k < |RenderAll(names, ScopusUrl)| ==> '\n' !in RenderAll(names, ScopusUrl)[k]
  {
    ScopusUrlsLineFeed(names);
  }

  /** A file of URLs none of which holds a line feed has one line feed per URL. */
  lemma FileLineFeedsOnePerUrl(urls: seq<string>)
    requires forall k :: 0 <= k < |urls| ==> '\n' !in urls[k]
    ensures Count(FileContents(urls), '\n') == |urls|
  {
    FileContentsLineFeeds(urls);
    SumCountsAbsent(urls, '\n');
  }

  /** When URL `k` holds a line feed exactly when name pair `k` does, the file
      reads back as the URL list exactly when no name holds one. */
  lemma FileReadsBackIff(urls: seq<string>, names: seq<Names>)
    requires |urls| == |names|
    requires forall k :: 0 <= k < |names| ==>
      ('\n' in urls[k] <==> '\n' in names[k].first || '\n' in names[k].last)
    ensures SplitLines(FileContents(urls)) == urls <==>
      forall k :: 0 <= k < |names| ==> '\n' !in names[k].first && '\n' !in names[k].last
  {
    FileContentsLines(urls);
  }

  /** Stripping only trims the ends of a cell: a name with a line feed inside
      passes the filter intact. */
  lemma InnerLineFeedIsKept()
    ensures CellText(Some("Ada\nMarie")) == "Ada\nMarie"
    ensures IsUsableName(CellText(Some("Ada\nMarie"))) && '\n' in CellText(Some("Ada\nMarie"))
  {
    StripUnchanged("Ada\nMarie");
  }

  // ------------------------------------------------------ extension check

  /** `path.lower().endswith(('.xlsx', '.xls'))`. */
  predicate IsExcelFileName(path: string)
  {
    EndsWith(Lower(path), ".xlsx") || EndsWith(Lower(path), ".xls")
  }

  /** The extension check accepts exactly the paths whose last five characters
      spell ".xlsx", or whose last four spell ".xls", in any letter case. */
  lemma IsExcelFileNameCharacterisation(path: string)
    ensures IsExcelFileName(path) <==>
      (5 <= |path| && EqualsIgnoringCase(path[|path| - 5..], ".xlsx")) ||
      (4 <= |path| && EqualsIgnoringCase(path[|path| - 4..], ".xls"))
  {
    EndsWithLower(path, ".xlsx");
    EndsWithLower(path, ".xls");
  }

  /** Upper-case and mixed-case extensions pass the check. */
  lemma ExcelExtensionInAnyCase()
    ensures IsExcelFileName("a.XLSX") && IsExcelFileName("a.Xls")
  {
    assert Lower("a.XLSX")[1..] == ".xlsx";
    assert Lower("a.Xls")[1..] == ".xls";
  }

  /** Other extensions, and a bare "xls" without its dot, do not. */
  lemma OtherExtensionsFail()
    ensures !IsExcelFileName("a.csv") && !IsExcelFileName("xls") && !IsExcelFileName("a.xlsm")
  {
    IsExcelFileNameCharacterisation("a.csv");
    assert LowerChar("a.csv"[4]) != LowerChar(".xlsx"[4]);
    assert LowerChar("a.csv"[2]) != LowerChar(".xls"[1]);
    IsExcelFileNameCharacterisation("xls");
    IsExcelFileNameCharacterisation("a.xlsm");
    assert LowerChar("a.xlsm"[5]) != LowerChar(".xlsx"[4]);
    assert LowerChar("a.xlsm"[2]) != LowerChar(".xls"[0]);
  }
}
