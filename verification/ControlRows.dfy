/** Reading the certification controls off the rows of the standard's worksheet.

The pattern that recognises a part heading is a parameter: the name it takes from a cell, if it matches.
Digits are ASCII digits.
 */
module ControlRows {
  import opened Wrappers
  import opened Sequences
  import opened Sorting
  import Decimal
  import Strings
  import Text

  type Row = seq<string>

  datatype Control = Control(id: string, name: string, part: string, section: string)

  datatype Error = NoName | NoHeadings | Twice

  // ---- control numbers -----------------------------------------------------------------------------------

  predicate IsNumeral(s: string) { s != "" && Decimal.AllDigits(s) }

  /** Three numerals with dots between. */
  predicate IsControlId(s: string) {
    var f := Strings.Split(s, '.');
    |f| == 3 && IsNumeral(f[0]) && IsNumeral(f[1]) && IsNumeral(f[2])
  }

  predicate IsSectionId(s: string) {
    var f := Strings.Split(s, '.');
    |f| == 3 && IsNumeral(f[0]) && IsNumeral(f[1]) && f[2] == ""
  }

  /** The numbers of a control id, by which the controls are ordered. */
  function Numbers(id: string): seq<int> {
    var f := Strings.Split(id, '.');
    if IsControlId(id) then [Decimal.NatOf(f[0]), Decimal.NatOf(f[1]), Decimal.NatOf(f[2])] else []
  }

  /** The id as it is spelled without leading zeros. */
  function PlainId(id: string): seq<string> { Map(Decimal.Plain, Strings.Split(id, '.')) }

  lemma SameNumerals(f: seq<string>, g: seq<string>)
    requires |f| == 3 && IsNumeral(f[0]) && IsNumeral(f[1]) && IsNumeral(f[2])
    requires |g| == 3 && IsNumeral(g[0]) && IsNumeral(g[1]) && IsNumeral(g[2])
    ensures Map(Decimal.Plain, f) == Map(Decimal.Plain, g) <==>
            (&& Decimal.NatOf(f[0]) == Decimal.NatOf(g[0]) && Decimal.NatOf(f[1]) == Decimal.NatOf(g[1])
             && Decimal.NatOf(f[2]) == Decimal.NatOf(g[2]))
  {
    Decimal.SameNumber(f[0], g[0]);
    Decimal.SameNumber(f[1], g[1]);
    Decimal.SameNumber(f[2], g[2]);
    SameThree(Map(Decimal.Plain, f), Map(Decimal.Plain, g));
  }

  lemma SameThree<T>(s: seq<T>, r: seq<T>)
    requires |s| == |r| == 3
    ensures s == r <==> s[0] == r[0] && s[1] == r[1] && s[2] == r[2]
  {
  }

  lemma SameNumbers(a: string, b: string)
    requires IsControlId(a) && IsControlId(b)
    ensures Numbers(a) == Numbers(b) <==> PlainId(a) == PlainId(b)
  {
    SameNumerals(Strings.Split(a, '.'), Strings.Split(b, '.'));
  }

  predicate ByNumbers(a: Control, b: Control) { Text.Below(Numbers(a.id), Numbers(b.id)) }

  /** The controls are ordered by chapter, section and item as numbers. */
  lemma ByNumbersExactly(a: Control, b: Control)
    requires IsControlId(a.id) && IsControlId(b.id)
    ensures var m, n := Numbers(a.id), Numbers(b.id);
            ByNumbers(a, b) <==>
            m[0] < n[0] || (m[0] == n[0] && (m[1] < n[1] || (m[1] == n[1] && m[2] <= n[2])))
  {
    var m, n := Numbers(a.id), Numbers(b.id);
    ThreeBelow(m[0], m[1], m[2], n[0], n[1], n[2]);
    assert m == [m[0], m[1], m[2]] && n == [n[0], n[1], n[2]];
  }

  lemma ThreeBelow(a: int, b: int, c: int, x: int, y: int, z: int)
    ensures Text.Below([a, b, c], [x, y, z]) <==> a < x || (a == x && (b < y || (b == y && c <= z)))
  {
    assert [a, b, c][1..] == [b, c] && [b, c][1..] == [c] && [c][1..] == [];
    assert [x, y, z][1..] == [y, z] && [y, z][1..] == [z] && [z][1..] == [];
    assert Text.Below([c], [z]) <==> c <= z;
    assert Text.Below([b, c], [y, z]) <==> b < y || (b == y && Text.Below([c], [z]));
  }

  lemma ThreeJoined(x: string, y: string, z: string)
    ensures Strings.Join([x, y, z], '.') == x + "." + y + "." + z
  {
    assert [x, y, z][1..] == [y, z] && [y, z][1..] == [z];
    assert Strings.Join([z], '.') == z;
    assert Strings.Join([y, z], '.') == y + (['.'] + z);
    assert Strings.Join([x, y, z], '.') == x + (['.'] + (y + (['.'] + z)));
  }

  lemma ThreeSplit(x: string, y: string, z: string)
    requires Decimal.AllDigits(x) && Decimal.AllDigits(y) && Decimal.AllDigits(z)
    ensures Strings.Split(x + "." + y + "." + z, '.') == [x, y, z]
  {
    ThreeJoined(x, y, z);
    Strings.SplitJoin([x, y, z], '.');
  }

  lemma ThreeParts(s: string)
    requires |Strings.Split(s, '.')| == 3
    ensures var f := Strings.Split(s, '.'); s == f[0] + "." + f[1] + "." + f[2]
  {
    var f := Strings.Split(s, '.');
    Strings.JoinSplit(s, '.');
    assert f == [f[0], f[1], f[2]];
    ThreeJoined(f[0], f[1], f[2]);
  }

  /** A control id is three numerals with dots between, and nothing else is. */
  lemma ControlIdExactly(s: string)
    ensures IsControlId(s) <==>
            exists x, y, z :: IsNumeral(x) && IsNumeral(y) && IsNumeral(z) && s == x + "." + y + "." + z
  {
    if IsControlId(s) { ThreeParts(s); }
    if x, y, z :| IsNumeral(x) && IsNumeral(y) && IsNumeral(z) && s == x + "." + y + "." + z { ThreeSplit(x, y, z); }
  }

  /** A section id is two numerals, each with a dot behind it. */
  lemma SectionIdExactly(s: string)
    ensures IsSectionId(s) <==> exists x, y :: IsNumeral(x) && IsNumeral(y) && s == x + "." + y + "." + ""
  {
    if IsSectionId(s) { ThreeParts(s); }
    if x, y :| IsNumeral(x) && IsNumeral(y) && s == x + "." + y + "." + "" { ThreeSplit(x, y, ""); }
  }

  lemma NumeralsAre(id: string, x: string, y: string, z: string)
    requires Strings.Split(id, '.') == [x, y, z] && IsNumeral(x) && IsNumeral(y) && IsNumeral(z)
    ensures IsControlId(id) && Numbers(id) == [Decimal.NatOf(x), Decimal.NatOf(y), Decimal.NatOf(z)]
  {
  }

  /** The numbers of an id are those written between its dots. */
  lemma NumbersWritten(a: nat, b: nat, c: nat)
    ensures var id := Decimal.Digits(a) + "." + Decimal.Digits(b) + "." + Decimal.Digits(c);
            IsControlId(id) && Numbers(id) == [a, b, c]
  {
    var x, y, z := Decimal.Digits(a), Decimal.Digits(b), Decimal.Digits(c);
    ThreeSplit(x, y, z);
    NumeralsAre(x + "." + y + "." + z, x, y, z);
    Decimal.NatOfDigits(a);
    Decimal.NatOfDigits(b);
    Decimal.NatOfDigits(c);
  }

  lemma ByNumbersOrder()
    ensures TotalPreorder(ByNumbers)
  {
    forall a, b ensures ByNumbers(a, b) || ByNumbers(b, a) { Text.BelowTotal(Numbers(a.id), Numbers(b.id)); }
    forall a, b, c | ByNumbers(a, b) && ByNumbers(b, c) ensures ByNumbers(a, c) {
      Text.BelowTransitive(Numbers(a.id), Numbers(b.id), Numbers(c.id));
    }
  }

  // ---- rows ------------------------------------------------------------------------------------------------

  function Cells(row: Row): seq<string> { Strings.NonEmpty(Map(Strings.Strip, row)) }

  /** The part that a heading opens: one cell that the heading pattern matches. */
  function HeadingIn(heading: string -> Option<string>, cells: seq<string>): Option<string> {
    if |cells| != 1 then None
    else match heading(cells[0]) case Some(name) => Some(Strings.Strip(name)) case None => None
  }

  predicate OpensSection(cells: seq<string>) { |cells| >= 2 && IsSectionId(cells[0]) }

  /** Where the control id is, if there is one. */
  function ControlIn(cells: seq<string>): (index: Option<nat>)
    ensures index.Some? ==> index.value < |cells| && IsControlId(cells[index.value])
  {
    var index := if OpensSection(cells) then 2 else 0;
    if index < |cells| && IsControlId(cells[index]) then Some(index) else None
  }

  /** What a row under these headings contributes: nothing, a control, or an error. */
  function ReadCells(heading: string -> Option<string>, cells: seq<string>, part: string, section: string)
    : Result<Option<Control>, Error>
  {
    var at := ControlIn(cells);
    if HeadingIn(heading, cells).Some? || at.None? then Ok(None)
    else if at.value + 1 >= |cells| then Err(NoName)
    else if part == "" || section == "" then Err(NoHeadings)
    else Ok(Some(Control(cells[at.value], cells[at.value + 1], part, section)))
  }

  /** The last title in force before `n`, if there is one. */
  function LastTitle(titles: nat -> Option<string>, n: nat): string {
    if n == 0 then "" else match titles(n - 1) case Some(title) => title case None => LastTitle(titles, n - 1)
  }

  function TitleIn(cells: seq<string>): Option<string> { if OpensSection(cells) then Some(cells[1]) else None }

  function Parts(heading: string -> Option<string>, rows: seq<Row>): nat -> Option<string> {
    (i: nat) => if i < |rows| then HeadingIn(heading, Cells(rows[i])) else None
  }

  function Sections(rows: seq<Row>): nat -> Option<string> {
    (i: nat) => if i < |rows| then TitleIn(Cells(rows[i])) else None
  }

  /** The part that row `n` stands in: that of the nearest heading before it. */
  function PartBefore(heading: string -> Option<string>, rows: seq<Row>, n: nat): string {
    LastTitle(Parts(heading, rows), n)
  }

  /** The section of the nearest row before `n` that opens one. */
  function SectionBefore(rows: seq<Row>, n: nat): string { LastTitle(Sections(rows), n) }

  function Reads(heading: string -> Option<string>, rows: seq<Row>, i: nat): Result<Option<Control>, Error>
    requires i < |rows|
  {
    ReadCells(heading, Cells(rows[i]), PartBefore(heading, rows, i), SectionBefore(rows, i + 1))
  }

  predicate AllOk(found: nat -> Result<Option<Control>, Error>, n: nat) {
    n == 0 || (AllOk(found, n - 1) && found(n - 1).Ok?)
  }

  /** What is read up to `n`, in order. */
  function Gather(found: nat -> Result<Option<Control>, Error>, n: nat): seq<Control> {
    if n == 0 then []
    else Gather(found, n - 1) + (match found(n - 1) case Ok(Some(c)) => [c] case _ => [])
  }

  function Reading(heading: string -> Option<string>, rows: seq<Row>): nat -> Result<Option<Control>, Error> {
    (i: nat) => if i < |rows| then Reads(heading, rows, i) else Ok(None)
  }

  /** The controls in document order. */
  function Collected(heading: string -> Option<string>, rows: seq<Row>): seq<Control> {
    Gather(Reading(heading, rows), |rows|)
  }

  function Ids(controls: seq<Control>): seq<string> { Map((c: Control) => c.id, controls) }

  predicate Readable(heading: string -> Option<string>, rows: seq<Row>) {
    AllOk(Reading(heading, rows), |rows|) && Distinct(Ids(Collected(heading, rows)))
  }

  // ---- the reader ------------------------------------------------------------------------------------------

  /** One turn of the loop over the rows: the headings from here on, and what the row contributes. */
  method ReadRow(heading: string -> Option<string>, cells: seq<string>, part: string, section: string)
    returns (r: Result<Option<Control>, Error>, partName: string, sectionName: string)
    ensures r == ReadCells(heading, cells, part, sectionName)
    ensures partName == match HeadingIn(heading, cells) case Some(name) => name case None => part
    ensures sectionName == if OpensSection(cells) then cells[1] else section
  {
    r, partName, sectionName := Ok(None), part, section;
    if cells == [] { return; }
    var name := heading(cells[0]);
    if name.Some? && |cells| == 1 {
      partName := Strings.Strip(name.value);
      return;
    }
    var index := 0;
    if IsSectionId(cells[0]) && |cells| >= 2 {
      sectionName := cells[1];
      index := 2;
    }
    if index < |cells| && IsControlId(cells[index]) {
      if index + 1 >= |cells| {
        r := Err(NoName);
      } else if partName == "" || sectionName == "" {
        r := Err(NoHeadings);
      } else {
        r := Ok(Some(Control(cells[index], cells[index + 1], partName, sectionName)));
      }
    }
  }

  lemma ReadingAt(heading: string -> Option<string>, rows: seq<Row>, i: nat, part: string, section: string)
    requires i < |rows| && part == PartBefore(heading, rows, i) && section == SectionBefore(rows, i + 1)
    ensures Reading(heading, rows)(i) == ReadCells(heading, Cells(rows[i]), part, section)
  {
  }

  method NextRow(heading: string -> Option<string>, rows: seq<Row>, i: nat, part: string, section: string)
    returns (read: Result<Option<Control>, Error>, partName: string, sectionName: string)
    requires i < |rows| && part == PartBefore(heading, rows, i) && section == SectionBefore(rows, i)
    ensures read == Reading(heading, rows)(i)
    ensures partName == PartBefore(heading, rows, i + 1) && sectionName == SectionBefore(rows, i + 1)
  {
    read, partName, sectionName := ReadRow(heading, Cells(rows[i]), part, section);
    ReadingAt(heading, rows, i, part, sectionName);
  }

  /** What the loop has established before row `i`. */
  ghost predicate Progress(heading: string -> Option<string>, rows: seq<Row>, i: nat, part: string, section: string,
                           controls: seq<Control>)
    requires i <= |rows|
  {
    && part == PartBefore(heading, rows, i) && section == SectionBefore(rows, i)
    && AllOk(Reading(heading, rows), i) && controls == Gather(Reading(heading, rows), i)
  }

  lemma ProgressEnds(heading: string -> Option<string>, rows: seq<Row>, part: string, section: string,
                     controls: seq<Control>)
    requires Progress(heading, rows, |rows|, part, section, controls)
    ensures AllOk(Reading(heading, rows), |rows|) && controls == Collected(heading, rows)
  {
  }

  lemma RowFails(heading: string -> Option<string>, rows: seq<Row>, i: nat)
    requires i < |rows| && Reading(heading, rows)(i).Err?
    ensures !AllOk(Reading(heading, rows), |rows|)
  {
    FirstFailure(Reading(heading, rows), i, |rows|);
  }

  /** Row `i` is the first that cannot be read. */
  ghost predicate FailsFirst(heading: string -> Option<string>, rows: seq<Row>, i: nat, reason: Error)
    requires i < |rows|
  {
    AllOk(Reading(heading, rows), i) && Reading(heading, rows)(i) == Err(reason)
  }

  /** Reading stops at a row, for this reason. */
  ghost predicate Fails(heading: string -> Option<string>, rows: seq<Row>, reason: Error) {
    exists i: nat :: i < |rows| && FailsFirst(heading, rows, i, reason)
  }

  lemma RowFailure(heading: string -> Option<string>, rows: seq<Row>, i: nat, reason: Error)
    requires i < |rows| && FailsFirst(heading, rows, i, reason)
    ensures Fails(heading, rows, reason) && reason != Twice
  {
    var part, section := PartBefore(heading, rows, i), SectionBefore(rows, i + 1);
    ReadingAt(heading, rows, i, part, section);
    NeverTwice(heading, Cells(rows[i]), part, section);
  }

  lemma NeverTwice(heading: string -> Option<string>, cells: seq<string>, part: string, section: string)
    ensures ReadCells(heading, cells, part, section) != Err(Twice)
  {
  }

  method CollectRow(heading: string -> Option<string>, rows: seq<Row>, i: nat, part: string, section: string,
                    controls: seq<Control>)
    returns (failure: Option<Error>, partName: string, sectionName: string, more: seq<Control>)
    requires i < |rows| && Progress(heading, rows, i, part, section, controls)
    ensures failure.Some? ==> !AllOk(Reading(heading, rows), |rows|) && FailsFirst(heading, rows, i, failure.value)
    ensures failure.None? ==> Progress(heading, rows, i + 1, partName, sectionName, more)
  {
    var read;
    failure, more := None, controls;
    read, partName, sectionName := NextRow(heading, rows, i, part, section);
    if read.Err? {
      RowFails(heading, rows, i);
      failure := Some(read.reason);
    } else if read.value.Some? {
      more := controls + [read.value.value];
    }
  }

  method Collect(heading: string -> Option<string>, rows: seq<Row>) returns (r: Result<seq<Control>, Error>)
    ensures r.Ok? <==> AllOk(Reading(heading, rows), |rows|)
    ensures r.Ok? ==> r.value == Collected(heading, rows)
    ensures r.Err? ==> Fails(heading, rows, r.reason) && r.reason != Twice
  {
    var controls: seq<Control> := [];
    var part, section := "", "";
    for i := 0 to |rows|
      invariant Progress(heading, rows, i, part, section, controls)
    {
      var failure;
      failure, part, section, controls := CollectRow(heading, rows, i, part, section, controls);
      if failure.Some? {
        RowFailure(heading, rows, i, failure.value);
        return Err(failure.value);
      }
    }
    ProgressEnds(heading, rows, part, section, controls);
    r := Ok(controls);
  }

  lemma SortedIds(controls: seq<Control>)
    ensures Distinct(Ids(Sort(ByNumbers, controls))) <==> Distinct(Ids(controls))
    ensures multiset(Sort(ByNumbers, controls)) == multiset(controls) && Sorted(ByNumbers, Sort(ByNumbers, controls))
  {
    var sorted := Sort(ByNumbers, controls);
    ByNumbersOrder();
    SortIsStable(ByNumbers, controls);
    MapMultiset((c: Control) => c.id, controls, sorted);
    if Distinct(Ids(sorted)) { DistinctMultiset(Ids(sorted), Ids(controls)); }
    if Distinct(Ids(controls)) { DistinctMultiset(Ids(controls), Ids(sorted)); }
  }

  method ReadControls(heading: string -> Option<string>, rows: seq<Row>) returns (r: Result<seq<Control>, Error>)
    ensures r.Ok? <==> Readable(heading, rows)
    ensures r.Ok? ==> r.value == Sort(ByNumbers, Collected(heading, rows))
    ensures r == Err(Twice) <==>
            AllOk(Reading(heading, rows), |rows|) && !Distinct(Ids(Collected(heading, rows)))
    ensures r.Err? && r.reason != Twice ==> Fails(heading, rows, r.reason)
  {
    var collected := Collect(heading, rows);
    if collected.Err? { return collected; }
    var controls := Sort(ByNumbers, collected.value);
    SortedIds(collected.value);
    var distinct := IsDistinct(Ids(controls));
    r := if distinct then Ok(controls) else Err(Twice);
  }

  // ---- what is read ----------------------------------------------------------------------------------------

  /** Rows that cannot be read are not skipped. */
  lemma {:induction false} AllOkEach(found: nat -> Result<Option<Control>, Error>, n: nat)
    ensures AllOk(found, n) <==> forall i: nat :: i < n ==> found(i).Ok?
  {
    if n > 0 { AllOkEach(found, n - 1); }
  }

  lemma {:induction false} FirstFailure(found: nat -> Result<Option<Control>, Error>, i: nat, n: nat)
    requires i < n && found(i).Err?
    ensures !AllOk(found, n)
  {
    if i < n - 1 { FirstFailure(found, i, n - 1); }
  }

  lemma {:induction false} GatherExactly(found: nat -> Result<Option<Control>, Error>, n: nat, c: Control)
    ensures c in Gather(found, n) <==> exists i: nat :: i < n && found(i) == Ok(Some(c))
  {
    if n > 0 { GatherExactly(found, n - 1, c); }
  }

  lemma ControlRead(heading: string -> Option<string>, cells: seq<string>, part: string, section: string, c: Control)
    requires ReadCells(heading, cells, part, section) == Ok(Some(c))
    ensures IsControlId(c.id) && c.part == part != "" && c.section == section != ""
  {
  }

  lemma ReadsControl(heading: string -> Option<string>, rows: seq<Row>, i: nat, c: Control)
    requires Reading(heading, rows)(i) == Ok(Some(c))
    ensures i < |rows| && IsControlId(c.id) && c.part == PartBefore(heading, rows, i) != ""
    ensures c.section == SectionBefore(rows, i + 1) != ""
  {
    ReadingAt(heading, rows, i, PartBefore(heading, rows, i), SectionBefore(rows, i + 1));
    ControlRead(heading, Cells(rows[i]), PartBefore(heading, rows, i), SectionBefore(rows, i + 1), c);
  }

  /** The controls are those of the rows, and no others; each stands under the headings in force in its row. */
  lemma CollectedExactly(heading: string -> Option<string>, rows: seq<Row>, c: Control)
    ensures c in Collected(heading, rows) <==> exists i: nat :: i < |rows| && Reading(heading, rows)(i) == Ok(Some(c))
    ensures c in Collected(heading, rows) ==> IsControlId(c.id)
    ensures forall i: nat :: Reading(heading, rows)(i) == Ok(Some(c)) ==>
              && i < |rows| && c.part == PartBefore(heading, rows, i) != ""
              && c.section == SectionBefore(rows, i + 1) != ""
  {
    GatherExactly(Reading(heading, rows), |rows|, c);
    forall i: nat | Reading(heading, rows)(i) == Ok(Some(c))
      ensures i < |rows| && IsControlId(c.id) && c.part == PartBefore(heading, rows, i) != ""
      ensures c.section == SectionBefore(rows, i + 1) != ""
    {
      ReadsControl(heading, rows, i, c);
    }
  }

  /** Row `j` is the nearest heading before row `n`. */
  predicate Nearest(heading: string -> Option<string>, rows: seq<Row>, j: nat, n: nat)
    requires j < n <= |rows|
  {
    HeadingIn(heading, Cells(rows[j])).Some? && forall k :: j < k < n ==> HeadingIn(heading, Cells(rows[k])).None?
  }

  lemma {:induction false} NearestTitle(titles: nat -> Option<string>, j: nat, n: nat)
    requires j < n && titles(j).Some? && forall k :: j < k < n ==> titles(k).None?
    ensures Some(LastTitle(titles, n)) == titles(j)
  {
    if j < n - 1 { NearestTitle(titles, j, n - 1); }
  }

  lemma NearestHeading(heading: string -> Option<string>, rows: seq<Row>, j: nat, n: nat)
    requires j < n <= |rows| && Nearest(heading, rows, j, n)
    ensures Some(PartBefore(heading, rows, n)) == HeadingIn(heading, Cells(rows[j]))
  {
    NearestTitle(Parts(heading, rows), j, n);
  }

  predicate NearestOpening(rows: seq<Row>, j: nat, n: nat)
    requires j < n <= |rows|
  {
    OpensSection(Cells(rows[j])) && forall k :: j < k < n ==> !OpensSection(Cells(rows[k]))
  }

  lemma NearestSection(rows: seq<Row>, j: nat, n: nat)
    requires j < n <= |rows| && NearestOpening(rows, j, n)
    ensures SectionBefore(rows, n) == Cells(rows[j])[1]
  {
    NearestTitle(Sections(rows), j, n);
  }

  predicate StrictlyIncreasing(controls: seq<Control>) {
    forall i, j :: 0 <= i < j < |controls| ==>
      Text.Below(Numbers(controls[i].id), Numbers(controls[j].id)) && Numbers(controls[i].id) != Numbers(controls[j].id)
  }

  lemma IdsAreControlIds(heading: string -> Option<string>, rows: seq<Row>)
    ensures forall c :: c in Collected(heading, rows) ==> IsControlId(c.id)
  {
    forall c | c in Collected(heading, rows) ensures IsControlId(c.id) { CollectedExactly(heading, rows, c); }
  }

  function PlainIds(controls: seq<Control>): seq<seq<string>> { Map((c: Control) => PlainId(c.id), controls) }

  lemma StrictlyIncreasingSorted(controls: seq<Control>)
    requires Sorted(ByNumbers, controls) && forall c :: c in controls ==> IsControlId(c.id)
    ensures StrictlyIncreasing(controls) <==> Distinct(PlainIds(controls))
  {
    forall i, j | 0 <= i < j < |controls|
      ensures Numbers(controls[i].id) == Numbers(controls[j].id) <==> PlainIds(controls)[i] == PlainIds(controls)[j]
    {
      SameNumbers(controls[i].id, controls[j].id);
    }
  }

  lemma DistinctSorted(controls: seq<Control>)
    ensures Distinct(PlainIds(Sort(ByNumbers, controls))) <==> Distinct(PlainIds(controls))
  {
    var sorted := Sort(ByNumbers, controls);
    SortedIds(controls);
    MapMultiset((c: Control) => PlainId(c.id), controls, sorted);
    if Distinct(PlainIds(sorted)) { DistinctMultiset(PlainIds(sorted), PlainIds(controls)); }
    if Distinct(PlainIds(controls)) { DistinctMultiset(PlainIds(controls), PlainIds(sorted)); }
  }

  /** Repeats are looked for in the spelling of the ids. So the accepted controls increase strictly by number
      exactly when no two ids in the document differ in leading zeros only. */
  lemma StrictlyIncreasingExactly(heading: string -> Option<string>, rows: seq<Row>)
    ensures var collected := Collected(heading, rows);
            StrictlyIncreasing(Sort(ByNumbers, collected)) <==> Distinct(PlainIds(collected))
  {
    var collected := Collected(heading, rows);
    IdsAreControlIds(heading, rows);
    SortedIds(collected);
    forall c | c in Sort(ByNumbers, collected) ensures IsControlId(c.id) {
      assert c in multiset(Sort(ByNumbers, collected));
    }
    StrictlyIncreasingSorted(Sort(ByNumbers, collected));
    DistinctSorted(collected);
  }

  // ---- the order is numeric ----------------------------------------------------------------------------

  lemma TwoInOrder(c: Control, d: Control)
    requires ByNumbers(c, d) && !ByNumbers(d, c)
    ensures Sort(ByNumbers, [d, c]) == [c, d] && Sort(ByNumbers, [c, d]) == [c, d]
  {
    assert [d, c][1..] == [c] && [c, d][1..] == [d] && [c][1..] == [] && [d][1..] == [];
    assert Sort(ByNumbers, [c]) == [c] && Sort(ByNumbers, [d]) == [d];
  }

  lemma ItemOrder(a: nat, b: nat, m: nat, n: nat, c: Control, d: Control)
    requires m < n
    requires c.id == Decimal.Digits(a) + "." + Decimal.Digits(b) + "." + Decimal.Digits(m)
    requires d.id == Decimal.Digits(a) + "." + Decimal.Digits(b) + "." + Decimal.Digits(n)
    ensures Sort(ByNumbers, [d, c]) == [c, d] && Sort(ByNumbers, [c, d]) == [c, d]
  {
    NumbersWritten(a, b, m);
    NumbersWritten(a, b, n);
    ByNumbersExactly(c, d);
    ByNumbersExactly(d, c);
    TwoInOrder(c, d);
  }

  lemma SmallNumerals()
    ensures Decimal.Digits(1) == "1" && Decimal.Digits(2) == "2" && Decimal.Digits(10) == "10"
  {
  }

  /** `1.1.1` before `1.1.2`, and `1.1.2` before `1.1.10`. */
  lemma ControlsInOrder(c: Control, d: Control, e: Control)
    requires c.id == "1.1.1" && d.id == "1.1.2" && e.id == "1.1.10"
    ensures Sort(ByNumbers, [d, c]) == [c, d] && Sort(ByNumbers, [e, d]) == [d, e]
  {
    SmallNumerals();
    assert "1" + "." + "1" + "." + "1" == "1.1.1" && "1" + "." + "1" + "." + "2" == "1.1.2";
    assert "1" + "." + "1" + "." + "10" == "1.1.10";
    ItemOrder(1, 1, 1, 2, c, d);
    ItemOrder(1, 1, 2, 10, d, e);
  }

  // ---- rows that are accepted and do not increase ------------------------------------------------------

  /** Row by row: the headings after the row, and what the row contributes. */
  lemma Turn(heading: string -> Option<string>, rows: seq<Row>, i: nat, cells: seq<string>, section: string)
    requires i < |rows| && Cells(rows[i]) == cells
    requires section == if OpensSection(cells) then cells[1] else SectionBefore(rows, i)
    ensures HeadingIn(heading, cells).Some? ==> PartBefore(heading, rows, i + 1) == HeadingIn(heading, cells).value
    ensures HeadingIn(heading, cells).None? ==> PartBefore(heading, rows, i + 1) == PartBefore(heading, rows, i)
    ensures SectionBefore(rows, i + 1) == section
    ensures Reading(heading, rows)(i) == ReadCells(heading, cells, PartBefore(heading, rows, i), section)
  {
  }

  lemma HeadingSkipped(heading: string -> Option<string>, cells: seq<string>, part: string, section: string)
    requires HeadingIn(heading, cells).Some?
    ensures !OpensSection(cells) && ReadCells(heading, cells, part, section) == Ok(None)
  {
  }

  lemma HeadingCells(heading: string -> Option<string>, cells: seq<string>, name: string)
    requires |cells| == 1 && heading(cells[0]) == Some(name) && Strings.Trimmed(name)
    ensures HeadingIn(heading, cells) == Some(name)
  {
    var stripped := Strings.Strip(name);
    assert stripped == name;
  }

  lemma OpeningCells(heading: string -> Option<string>, sec: string, title: string, id: string, name: string,
                     part: string)
    requires IsSectionId(sec) && IsControlId(id) && part != "" && title != ""
    ensures var cells := [sec, title, id, name];
            && HeadingIn(heading, cells).None? && OpensSection(cells) && cells[1] == title
            && ReadCells(heading, cells, part, title) == Ok(Some(Control(id, name, part, title)))
  {
    var cells := [sec, title, id, name];
    assert OpensSection(cells) && ControlIn(cells) == Some(2);
  }

  lemma ControlCells(heading: string -> Option<string>, id: string, name: string, part: string, section: string)
    requires IsControlId(id) && part != "" && section != ""
    ensures var cells := [id, name];
            && HeadingIn(heading, cells).None? && !OpensSection(cells)
            && ReadCells(heading, cells, part, section) == Ok(Some(Control(id, name, part, section)))
  {
    var cells := [id, name];
    assert !OpensSection(cells) && ControlIn(cells) == Some(0);
  }

  lemma TwinGathered(found: nat -> Result<Option<Control>, Error>, c: Control, d: Control)
    requires found(0) == Ok(None) && found(1) == Ok(Some(c)) && found(2) == Ok(Some(d))
    ensures AllOk(found, 3) && Gather(found, 3) == [c, d]
  {
    assert Gather(found, 1) == [] && Gather(found, 2) == [c];
    assert AllOk(found, 1) && AllOk(found, 2);
  }

  /** A heading `h`, a row `p` that opens a section with its first control, and a row `q` with another control. */
  ghost predicate Twins(pattern: string -> Option<string>, h: Row, p: Row, q: Row, c: Control, d: Control) {
    && HeadingIn(pattern, h) == Some(c.part) && HeadingIn(pattern, p).None?
    && !OpensSection(h) && OpensSection(p) && !OpensSection(q) && p[1] == c.section
    && ReadCells(pattern, h, "", "") == Ok(None)
    && ReadCells(pattern, p, c.part, c.section) == Ok(Some(c))
    && ReadCells(pattern, q, c.part, c.section) == Ok(Some(d))
  }

  lemma TwinRead(pattern: string -> Option<string>, rows: seq<Row>, c: Control, d: Control)
    requires |rows| == 3 && Twins(pattern, Cells(rows[0]), Cells(rows[1]), Cells(rows[2]), c, d)
    ensures AllOk(Reading(pattern, rows), |rows|) && Collected(pattern, rows) == [c, d]
  {
    Turn(pattern, rows, 0, Cells(rows[0]), "");
    Turn(pattern, rows, 1, Cells(rows[1]), c.section);
    Turn(pattern, rows, 2, Cells(rows[2]), c.section);
    TwinGathered(Reading(pattern, rows), c, d);
  }

  lemma TwinCells(pattern: string -> Option<string>, heading: string, sec: string, c: Control, d: Control)
    requires pattern(heading) == Some(c.part) && Strings.Trimmed(c.part)
    requires c.part == d.part != "" && c.section == d.section != ""
    requires IsSectionId(sec) && IsControlId(c.id) && IsControlId(d.id)
    ensures Twins(pattern, [heading], [sec, c.section, c.id, c.name], [d.id, d.name], c, d)
  {
    HeadingCells(pattern, [heading], c.part);
    HeadingSkipped(pattern, [heading], "", "");
    OpeningCells(pattern, sec, c.section, c.id, c.name, c.part);
    ControlCells(pattern, d.id, d.name, d.part, d.section);
  }

  lemma TwinsRepeat(collected: seq<Control>, c: Control, d: Control)
    requires collected == [c, d] && c.id != d.id && PlainId(c.id) == PlainId(d.id)
    ensures Distinct(Ids(collected)) && !Distinct(PlainIds(collected))
  {
    assert Ids(collected)[0] == c.id && Ids(collected)[1] == d.id;
    assert PlainIds(collected)[0] == PlainIds(collected)[1];
  }

  predicate Plain(s: string) { s != "" && Strings.Trimmed(s) }

  lemma CellsPlain(row: Row)
    requires forall i :: 0 <= i < |row| ==> Plain(row[i])
    ensures Cells(row) == row
  {
    forall i | 0 <= i < |row| ensures Strings.Strip(row[i]) == row[i] { assert Strings.Trimmed(row[i]); }
    assert Map(Strings.Strip, row) == row;
    Strings.NonEmptyAll(row);
  }

  predicate PlainRows(rows: seq<Row>) { forall i, k :: 0 <= i < |rows| && 0 <= k < |rows[i]| ==> Plain(rows[i][k]) }

  lemma PlainRowCells(rows: seq<Row>)
    requires PlainRows(rows)
    ensures forall i :: 0 <= i < |rows| ==> Cells(rows[i]) == rows[i]
  {
    forall i | 0 <= i < |rows| ensures Cells(rows[i]) == rows[i] { CellsPlain(rows[i]); }
  }

  /** A worksheet that spells one number twice is accepted, and its controls do not increase strictly. */
  lemma TwinsAccepted(pattern: string -> Option<string>, rows: seq<Row>, c: Control, d: Control)
    requires |rows| == 3 && PlainRows(rows) && Twins(pattern, rows[0], rows[1], rows[2], c, d)
    requires c.id != d.id && PlainId(c.id) == PlainId(d.id)
    ensures Readable(pattern, rows) && !StrictlyIncreasing(Sort(ByNumbers, Collected(pattern, rows)))
  {
    PlainRowCells(rows);
    TwinRead(pattern, rows, c, d);
    TwinsRepeat(Collected(pattern, rows), c, d);
    StrictlyIncreasingExactly(pattern, rows);
  }

  function TwinRows(heading: string, sec: string, c: Control, d: Control): seq<Row> {
    [[heading], [sec, c.section, c.id, c.name], [d.id, d.name]]
  }

  lemma TwinIds()
    ensures IsSectionId("1.1.") && IsControlId("1.1.1") && IsControlId("1.1.01")
    ensures PlainId("1.1.1") == PlainId("1.1.01")
  {
    TwinSplits();
    assert "01"[1..] == "1";
    assert Decimal.Plain("01") == Decimal.Plain("1");
  }

  lemma TwinSplits()
    ensures Strings.Split("1.1.", '.') == ["1", "1", ""]
    ensures Strings.Split("1.1.1", '.') == ["1", "1", "1"]
    ensures Strings.Split("1.1.01", '.') == ["1", "1", "01"]
  {
    Strings.SplitJoin(["1", "1", ""], '.');
    Strings.SplitJoin(["1", "1", "1"], '.');
    Strings.SplitJoin(["1", "1", "01"], '.');
    assert Strings.Join(["1", "1", ""], '.') == "1.1.";
    assert Strings.Join(["1", "1", "1"], '.') == "1.1.1";
    assert Strings.Join(["1", "1", "01"], '.') == "1.1.01";
  }

  lemma TwinsPlain()
    ensures PlainRows(TwinRows("1. P(1)", "1.1.", Control("1.1.1", "x", "P", "S"), Control("1.1.01", "y", "P", "S")))
    ensures Plain("P") && "1.1.1" != "1.1.01"
  {
    assert |"1.1.1"| != |"1.1.01"|;
  }

  /** The rows `1. P(1)` / `1.1.`, `S`, `1.1.1`, `x` / `1.1.01`, `y`. */
  lemma LeadingZeroTwin(pattern: string -> Option<string>)
    requires pattern("1. P(1)") == Some("P")
    ensures var rows := TwinRows("1. P(1)", "1.1.", Control("1.1.1", "x", "P", "S"), Control("1.1.01", "y", "P", "S"));
            Readable(pattern, rows) && !StrictlyIncreasing(Sort(ByNumbers, Collected(pattern, rows)))
  {
    TwinIds();
    TwinsPlain();
    var c, d := Control("1.1.1", "x", "P", "S"), Control("1.1.01", "y", "P", "S");
    TwinCells(pattern, "1. P(1)", "1.1.", c, d);
    TwinsAccepted(pattern, TwinRows("1. P(1)", "1.1.", c, d), c, d);
  }
}
