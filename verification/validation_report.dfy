/** The human-readable validation report, as a sequence of blocks: a banner,
    the summary counts, the verdict, then one section per non-empty list in
    a fixed order, then a closing rule. Findings keep the order the
    validator produced them in; table and index names are sorted. */
module ValidationReport {
  import opened Seqs
  import opened SchemaValidator

  /** The six optional sections, in the order they are printed. */
  datatype Heading =
    | IssuesHeading
    | WarningsHeading
    | TablesFoundHeading
    | TablesMissingHeading
    | IndexesFoundHeading
    | IndexesMissingHeading

  datatype Block =
    | Banner
    | SummaryBlock(summary: Summary)
    | Verdict(valid: bool)
    | FindingList(heading: Heading, findings: seq<Finding>)
    | NameList(heading: Heading, names: seq<string>)
    | Closing

  predicate IsSection(b: Block)
  {
    b.FindingList? || b.NameList?
  }

  function Rank(h: Heading): nat
  {
    match h
    case IssuesHeading => 0
    case WarningsHeading => 1
    case TablesFoundHeading => 2
    case TablesMissingHeading => 3
    case IndexesFoundHeading => 4
    case IndexesMissingHeading => 5
  }

  /** How many entries of the report a heading lists. */
  function ListSize(r: Report, h: Heading): nat
  {
    match h
    case IssuesHeading => |r.issues|
    case WarningsHeading => |r.warnings|
    case TablesFoundHeading => |r.tablesFound|
    case TablesMissingHeading => |r.tablesMissing|
    case IndexesFoundHeading => |r.indexesFound|
    case IndexesMissingHeading => |r.indexesMissing|
  }

  /** The names a name heading lists; empty for the two finding headings. */
  function NamesUnder(r: Report, h: Heading): seq<string>
  {
    match h
    case TablesFoundHeading => r.tablesFound
    case TablesMissingHeading => r.tablesMissing
    case IndexesFoundHeading => r.indexesFound
    case IndexesMissingHeading => r.indexesMissing
    case _ => []
  }

  /** Names in code-point order, as Python's `sorted` on strings. */
  function SortedNames(names: seq<string>): seq<string>
  {
    StrLeIsTotalPreorder();
    SortBy(names, StrLe)
  }

  /** Sorting keeps every name, adds none and leaves them in order. */
  lemma SortedNamesSorted(names: seq<string>)
    ensures SortedBy(SortedNames(names), StrLe)
    ensures multiset(SortedNames(names)) == multiset(names)
  {
    StrLeIsTotalPreorder();
  }

  /** The findings a finding heading lists; empty for the name headings. */
  function FindingsUnder(r: Report, h: Heading): seq<Finding>
  {
    match h
    case IssuesHeading => r.issues
    case WarningsHeading => r.warnings
    case _ => []
  }

  predicate IsFindingHeading(h: Heading)
  {
    h == IssuesHeading || h == WarningsHeading
  }

  /** The section printed for `h`: nothing when its list is empty. */
  function SectionFor(r: Report, h: Heading): seq<Block>
  {
    if ListSize(r, h) == 0 then []
    else if IsFindingHeading(h) then [FindingList(h, FindingsUnder(r, h))]
    else [NameList(h, SortedNames(NamesUnder(r, h)))]
  }

  function SectionsFrom(r: Report, hs: seq<Heading>): seq<Block>
  {
    if hs == [] then [] else SectionFor(r, hs[0]) + SectionsFrom(r, hs[1..])
  }

  const PrintOrder: seq<Heading> := [
    IssuesHeading, WarningsHeading, TablesFoundHeading, TablesMissingHeading,
    IndexesFoundHeading, IndexesMissingHeading
  ]

  function Render(r: Report): (out: seq<Block>)
    ensures |out| >= 4 && out[0] == Banner && out[|out| - 1] == Closing
    ensures out[1] == SummaryBlock(r.summary) && out[2] == Verdict(r.isValid)
  {
    [Banner, SummaryBlock(r.summary), Verdict(r.isValid)] + SectionsFrom(r, PrintOrder) + [Closing]
  }

  // ---------------------------------------------------------------------
  // What a rendering shows

  /** Some block of `out` is the section headed `h`. */
  predicate HasSection(out: seq<Block>, h: Heading)
  {
    exists i :: 0 <= i < |out| && IsSection(out[i]) && out[i].heading == h
  }

  /** Sections appear in the fixed heading order, each at most once. */
  predicate InHeadingOrder(out: seq<Block>)
  {
    forall i, j :: 0 <= i < j < |out| && IsSection(out[i]) && IsSection(out[j]) ==>
      Rank(out[i].heading) < Rank(out[j].heading)
  }

  predicate RanksIncrease(hs: seq<Heading>)
  {
    forall i, j :: 0 <= i < j < |hs| ==> Rank(hs[i]) < Rank(hs[j])
  }

  lemma {:induction false} SectionsOfConcat(a: seq<Block>, b: seq<Block>, h: Heading)
    ensures HasSection(a + b, h) <==> HasSection(a, h) || HasSection(b, h)
  {
    if HasSection(a + b, h) {
      var i :| 0 <= i < |a + b| && IsSection((a + b)[i]) && (a + b)[i].heading == h;
      if i >= |a| {
        assert b[i - |a|] == (a + b)[i];
      } else {
        assert a[i] == (a + b)[i];
      }
    }
    if HasSection(a, h) {
      var i :| 0 <= i < |a| && IsSection(a[i]) && a[i].heading == h;
      assert (a + b)[i] == a[i];
    }
    if HasSection(b, h) {
      var i :| 0 <= i < |b| && IsSection(b[i]) && b[i].heading == h;
      assert (a + b)[i + |a|] == b[i];
    }
  }

  /** Every block of the sections for `hs` is a section headed by an element
      of `hs`, and its contents are that heading's list. */
  lemma {:induction false} SectionsFromShape(r: Report, hs: seq<Heading>)
    ensures forall b :: b in SectionsFrom(r, hs) ==>
      && IsSection(b) && b.heading in hs && ListSize(r, b.heading) > 0
      && (b.FindingList? <==> IsFindingHeading(b.heading))
      && (b.FindingList? ==> b.findings == FindingsUnder(r, b.heading))
      && (b.NameList? ==> b.names == SortedNames(NamesUnder(r, b.heading)))
  {
    if hs != [] {
      SectionsFromShape(r, hs[1..]);
    }
  }

  /** Every block of the sections for `hs` is a section headed by an
      element of `hs`. */
  lemma {:induction false} SectionsFromHeadings(r: Report, hs: seq<Heading>)
    ensures forall b :: b in SectionsFrom(r, hs) ==> IsSection(b) && b.heading in hs
  {
    if hs != [] {
      SectionsFromHeadings(r, hs[1..]);
    }
  }

  lemma SectionForPresence(r: Report, h0: Heading, h: Heading)
    ensures HasSection(SectionFor(r, h0), h) <==> h == h0 && ListSize(r, h0) > 0
  {
    if ListSize(r, h0) > 0 {
      assert IsSection(SectionFor(r, h0)[0]);
    }
  }

  /** A heading of `hs` gets a section exactly when its list is non-empty. */
  lemma {:induction false} SectionsFromPresence(r: Report, hs: seq<Heading>, h: Heading)
    ensures HasSection(SectionsFrom(r, hs), h) <==> h in hs && ListSize(r, h) > 0
  {
    if hs != [] {
      SectionsFromPresence(r, hs[1..], h);
      SectionForPresence(r, hs[0], h);
      SectionsOfConcat(SectionFor(r, hs[0]), SectionsFrom(r, hs[1..]), h);
      assert h in hs <==> h == hs[0] || h in hs[1..];
    }
  }

  lemma {:induction false} OrderedConcat(a: seq<Block>, b: seq<Block>)
    requires InHeadingOrder(a) && InHeadingOrder(b)
    requires forall x, y :: x in a && y in b && IsSection(x) && IsSection(y) ==> Rank(x.heading) < Rank(y.heading)
    ensures InHeadingOrder(a + b)
  {
    forall i, j | 0 <= i < j < |a + b| && IsSection((a + b)[i]) && IsSection((a + b)[j])
      ensures Rank((a + b)[i].heading) < Rank((a + b)[j].heading)
    {
      if j < |a| {
        assert (a + b)[i] == a[i] && (a + b)[j] == a[j];
      } else if i >= |a| {
        assert (a + b)[i] == b[i - |a|] && (a + b)[j] == b[j - |a|];
      } else {
        assert (a + b)[i] == a[i] && a[i] in a;
        assert (a + b)[j] == b[j - |a|] && b[j - |a|] in b;
      }
    }
  }

  /** Headings listed in increasing rank give sections in heading order. */
  lemma {:induction false} SectionsFromOrdered(r: Report, hs: seq<Heading>)
    requires RanksIncrease(hs)
    ensures InHeadingOrder(SectionsFrom(r, hs))
  {
    if hs != [] {
      var head := SectionFor(r, hs[0]);
      var tail := SectionsFrom(r, hs[1..]);
      assert RanksIncrease(hs[1..]);
      SectionsFromOrdered(r, hs[1..]);
      SectionsFromHeadings(r, hs[1..]);
      assert forall x :: x in head ==> x.heading == hs[0];
      forall x, y | x in head && y in tail && IsSection(x) && IsSection(y)
        ensures Rank(x.heading) < Rank(y.heading)
      {
        var k :| 0 <= k < |hs[1..]| && hs[1..][k] == y.heading;
        assert hs[k + 1] == y.heading;
      }
      OrderedConcat(head, tail);
    }
  }

  lemma FrameHasNoSection(r: Report, h: Heading)
    ensures !HasSection([Banner, SummaryBlock(r.summary), Verdict(r.isValid)], h)
    ensures !HasSection([Closing], h)
  {
  }

  /** A section for `h` is printed exactly when the report's list under
      `h` is non-empty. */
  lemma {:induction false} SectionPresentIffNonEmpty(r: Report, h: Heading)
    ensures HasSection(Render(r), h) <==> ListSize(r, h) > 0
  {
    var front: seq<Block> := [Banner, SummaryBlock(r.summary), Verdict(r.isValid)];
    var mid := SectionsFrom(r, PrintOrder);
    FrameHasNoSection(r, h);
    SectionsFromPresence(r, PrintOrder, h);
    SectionsOfConcat(front, mid, h);
    SectionsOfConcat(front + mid, [Closing], h);
    assert h in PrintOrder by {
      match h
      case IssuesHeading => assert PrintOrder[0] == h;
      case WarningsHeading => assert PrintOrder[1] == h;
      case TablesFoundHeading => assert PrintOrder[2] == h;
      case TablesMissingHeading => assert PrintOrder[3] == h;
      case IndexesFoundHeading => assert PrintOrder[4] == h;
      case IndexesMissingHeading => assert PrintOrder[5] == h;
    }
  }

  /** Issues, then warnings, then found and missing tables, then found and
      missing indexes: never out of order and never repeated. */
  lemma {:induction false} RenderInHeadingOrder(r: Report)
    ensures InHeadingOrder(Render(r))
  {
    var front: seq<Block> := [Banner, SummaryBlock(r.summary), Verdict(r.isValid)];
    var mid := SectionsFrom(r, PrintOrder);
    var out := front + mid + [Closing];
    assert RanksIncrease(PrintOrder);
    SectionsFromOrdered(r, PrintOrder);
    forall i, j | 0 <= i < j < |out| && IsSection(out[i]) && IsSection(out[j])
      ensures Rank(out[i].heading) < Rank(out[j].heading)
    {
      assert out[i] == mid[i - 3] && out[j] == mid[j - 3];
    }
  }

  /** Each section holds exactly the report's list for its heading: the
      findings verbatim and in the validator's order, the names sorted with
      none lost and none added. */
  lemma {:induction false} SectionContents(r: Report)
    ensures forall b :: b in Render(r) && b.FindingList? ==> b.findings == FindingsUnder(r, b.heading)
    ensures forall b :: b in Render(r) && b.NameList? ==>
      SortedBy(b.names, StrLe) && multiset(b.names) == multiset(NamesUnder(r, b.heading))
  {
    var front: seq<Block> := [Banner, SummaryBlock(r.summary), Verdict(r.isValid)];
    var mid := SectionsFrom(r, PrintOrder);
    SectionsFromShape(r, PrintOrder);
    forall b | b in Render(r) && b.NameList?
      ensures SortedBy(b.names, StrLe) && multiset(b.names) == multiset(NamesUnder(r, b.heading))
    {
      assert b in mid;
      SortedNamesSorted(NamesUnder(r, b.heading));
    }
  }
}
