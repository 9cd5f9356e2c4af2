/**
 The pattern list of the design tool's sidebar: for every pattern library of
 the store, the library's patterns that match the current search, without
 synthetic pages, laid out as one labelled section per group followed by the
 patterns that have no group.

 What React draws is modelled as a layout value: `LibrarySection` for one
 library (`PatternLibraryContainer.render`) and `PatternListView` for the whole
 list (`PatternListContainer.render`). Styling, spacing, the search box, the
 drag image and the library-store link carry no behaviour and are not modelled.
 */
module PatternList {
  import opened Collections

  datatype Option<T> = None | Some(value: T)

  /** A pattern's type; only synthetic pages are told apart by the list. */
  datatype PatternType = SyntheticPage | OtherPatternType(tag: string)

  /** A pattern; `group` is `None` where `getGroup()` returns `undefined`. */
  datatype Pattern = Pattern(id: string, name: string, patternType: PatternType, group: Option<string>)

  datatype PatternLibrary = PatternLibrary(id: string, name: string, displayName: string)

  /** A group bucket: the group's name and its patterns. */
  type Group = Bucket<string, Pattern>

  // ------------------------------------------------------------- isGrouped

  /**
   `isGrouped(grouped)`: the closure that holds of a pattern when "its group is
   neither `''` nor `undefined`" equals `grouped`.
   */
  function IsGrouped(grouped: bool): Pattern -> bool {
    (p: Pattern) => (p.group != Some("") && p.group != None) == grouped
  }

  /** A pattern carries a group label: a group that is a non-empty string. */
  predicate HasGroupLabel(p: Pattern) {
    p.group.Some? && |p.group.value| > 0
  }

  /** `isGrouped(true)` picks out the labelled patterns and `isGrouped(false)` the others. */
  lemma IsGroupedPolarity(p: Pattern)
    ensures IsGrouped(true)(p) <==> HasGroupLabel(p)
    ensures IsGrouped(false)(p) <==> !IsGrouped(true)(p)
  {
  }

  // ------------------------------------------------------ library section

  /** The `.filter(..)` of `render`: every pattern but synthetic pages is listed. */
  predicate IsListed(p: Pattern) {
    p.patternType != SyntheticPage
  }

  /**
   The key lodash `groupBy` files a pattern under: its group (a grouped
   pattern always has one; `undefined` would become the property name
   "undefined").
   */
  function GroupKey(p: Pattern): string {
    match p.group
    case Some(g) => g
    case None => "undefined"
  }

  /** The value of the "Other Components" child expression, `a || (b && <label/>)`. */
  datatype ChildValue = JsBoolean(b: bool) | OtherComponentsLabel

  /** React draws nothing for `true` or `false`, and the label element otherwise. */
  predicate Draws(c: ChildValue) {
    c.OtherComponentsLabel?
  }

  /** `groupedPatterns.length === 0 || (ungroupedPatterns.length !== 0 && <label/>)` */
  function OtherLabelChild(grouped: seq<Pattern>, ungrouped: seq<Pattern>): ChildValue {
    if |grouped| == 0 then JsBoolean(true)
    else if |ungrouped| != 0 then OtherComponentsLabel
    else JsBoolean(false)
  }

  /** The label is drawn exactly when both kinds of pattern are present. */
  lemma OtherLabelDrawnWhenBoth(grouped: seq<Pattern>, ungrouped: seq<Pattern>)
    ensures Draws(OtherLabelChild(grouped, ungrouped)) <==> grouped != [] && ungrouped != []
  {
  }

  /** `getDisplayName() || getName()`: the display name unless it is empty. */
  function Heading(library: PatternLibrary): string {
    if library.displayName != "" then library.displayName else library.name
  }

  /** The labels of a list of group buckets, in order. */
  function Labels(groups: seq<Group>): seq<string> {
    seq(|groups|, i requires 0 <= i < |groups| => groups[i].0)
  }

  /** What one library contributes to the list. */
  datatype LibrarySection =
    | Nothing
    | Folder(heading: string, groups: seq<Group>, otherLabel: bool, ungrouped: seq<Pattern>)

  /** `patterns`: the library's search hits without synthetic pages. */
  function ListedPatterns(found: seq<Pattern>): seq<Pattern> {
    Filter(found, IsListed)
  }

  /** `[groupedPatterns, ungroupedPatterns]`. */
  function SplitByGroup(found: seq<Pattern>): (seq<Pattern>, seq<Pattern>) {
    Partition(ListedPatterns(found), IsGrouped(true))
  }

  /**
   `PatternLibraryContainer.render` for a library whose search hits
   (`library.getPatterns(searchResult)`) are `found`.
   */
  function LibrarySectionOf(library: PatternLibrary, found: seq<Pattern>): LibrarySection {
    var patterns := ListedPatterns(found);
    var (grouped, ungrouped) := SplitByGroup(found);
    var groups := GroupBy(grouped, GroupKey);
    if |patterns| == 0 then Nothing
    else Folder(Heading(library), groups, Draws(OtherLabelChild(grouped, ungrouped)), ungrouped)
  }

  // ----------------------------------------------------------- properties

  /** The parts of a drawn section, named by the expressions that compute them. */
  lemma SectionParts(library: PatternLibrary, found: seq<Pattern>)
    ensures var s := LibrarySectionOf(library, found);
      && (s.Nothing? <==> ListedPatterns(found) == [])
      && (s.Folder? ==>
            && s.heading == Heading(library)
            && s.groups == GroupBy(SplitByGroup(found).0, GroupKey)
            && s.otherLabel == Draws(OtherLabelChild(SplitByGroup(found).0, SplitByGroup(found).1))
            && s.ungrouped == SplitByGroup(found).1)
  {
  }

  /** No synthetic page is listed. */
  lemma ListedHasNoSyntheticPage(found: seq<Pattern>)
    ensures forall p :: p in ListedPatterns(found) ==> p.patternType != SyntheticPage
    ensures forall p :: p in found && p.patternType != SyntheticPage ==> p in ListedPatterns(found)
  {
  }

  /**
   Grouped and ungrouped are a stable partition of the listed patterns: the
   grouped ones carry a label, the ungrouped ones do not, they share no
   pattern, together they are a permutation of the listed patterns, and each
   keeps the listed order.
   */
  lemma SplitIsStablePartition(found: seq<Pattern>)
    ensures var (grouped, ungrouped) := SplitByGroup(found);
      && Interleaves(ListedPatterns(found), grouped, ungrouped)
      && (forall p :: p in grouped ==> HasGroupLabel(p))
      && (forall p :: p in ungrouped ==> p.group == None || p.group == Some(""))
      && (forall p :: p in grouped ==> p !in ungrouped)
      && multiset(grouped) + multiset(ungrouped) == multiset(ListedPatterns(found))
  {
    var listed := ListedPatterns(found);
    var (grouped, ungrouped) := SplitByGroup(found);
    PartitionIsStable(listed, IsGrouped(true));
    assert StablePartition(listed, IsGrouped(true), grouped, ungrouped);
    forall p | p in grouped
      ensures HasGroupLabel(p)
    {
      IsGroupedPolarity(p);
    }
    forall p | p in ungrouped
      ensures p.group == None || p.group == Some("")
    {
      IsGroupedPolarity(p);
    }
    InterleavesIsPermutation(listed, grouped, ungrouped);
  }

  function LabelIs(k: string): Pattern -> bool {
    (p: Pattern) => p.group == Some(k)
  }

  /** The listed patterns labelled with group `k`. */
  function ListedInGroup(k: string): Pattern -> bool {
    (p: Pattern) => IsListed(p) && p.group == Some(k)
  }

  /** The listed patterns without a group label. */
  predicate ListedUngrouped(p: Pattern) {
    IsListed(p) && !HasGroupLabel(p)
  }

  /** A library draws nothing exactly when none of its search hits is listed. */
  lemma SectionEmptyIffNothingListed(library: PatternLibrary, found: seq<Pattern>)
    ensures LibrarySectionOf(library, found).Nothing? <==> forall p :: p in found ==> p.patternType == SyntheticPage
  {
    var listed := ListedPatterns(found);
    if listed != [] {
      assert listed[0] in listed;
    }
  }

  /** A drawn section is headed by the library's display name, or by its name when that is empty. */
  lemma SectionHeading(library: PatternLibrary, found: seq<Pattern>)
    ensures var s := LibrarySectionOf(library, found);
      s.Folder? ==> s.heading == (if library.displayName == "" then library.name else library.displayName)
  {
  }

  /**
   The ungrouped patterns are the listed patterns without a group label, in
   the order of the search hits.
   */
  lemma SectionUngrouped(library: PatternLibrary, found: seq<Pattern>)
    ensures var s := LibrarySectionOf(library, found);
      s.Folder? ==> s.ungrouped == Filter(found, ListedUngrouped)
  {
    var listed := ListedPatterns(found);
    forall p | p in found
      ensures ListedUngrouped(p) <==> Not(IsGrouped(true))(p) && IsListed(p)
    {
      IsGroupedPolarity(p);
    }
    FilterFilter(found, Not(IsGrouped(true)), IsListed, ListedUngrouped);
  }

  /**
   Bucket `k` holds exactly the listed patterns labelled `k`, in the order of
   the search hits.
   */
  lemma BucketIsLabelled(found: seq<Pattern>, k: string)
    requires k != ""
    ensures Select(SplitByGroup(found).0, GroupKey, k) == Filter(found, ListedInGroup(k))
  {
    var listed := ListedPatterns(found);
    forall p | p in listed
      ensures LabelIs(k)(p) <==> HasKey(GroupKey, k)(p) && IsGrouped(true)(p)
    {
      IsGroupedPolarity(p);
      assert LabelIs(k)(p) == (p.group == Some(k));
      assert HasKey(GroupKey, k)(p) == (GroupKey(p) == k);
    }
    FilterFilter(listed, HasKey(GroupKey, k), IsGrouped(true), LabelIs(k));
    FilterFilter(found, LabelIs(k), IsListed, ListedInGroup(k));
  }

  /**
   The group buckets of a drawn section: distinct non-empty labels, each
   bucket holding exactly the listed patterns with its label in their original
   order, every labelled listed pattern in the bucket of its label, and the
   buckets in the order in which their labels first occur (the order lodash
   gives for labels that are not integer-like strings such as "1"; see
   `GroupBy`).
   */
  lemma SectionGroups(library: PatternLibrary, found: seq<Pattern>)
    ensures var s := LibrarySectionOf(library, found);
      s.Folder? ==>
        && DistinctKeys(s.groups)
        && (forall i :: 0 <= i < |s.groups| ==>
              && s.groups[i].0 != ""
              && s.groups[i].1 != []
              && s.groups[i].1 == Filter(found, ListedInGroup(s.groups[i].0)))
        && (forall p :: p in found && IsListed(p) && HasGroupLabel(p) ==>
              p.group.value in Labels(s.groups))
        && FirstSeenOrder(SplitByGroup(found).0, GroupKey, s.groups)
  {
    SectionParts(library, found);
    GroupByIsGrouping(SplitByGroup(found).0, GroupKey);
    GroupsAreLabelled(found);
    GroupsCoverLabelled(found);
  }

  lemma GroupsAreLabelled(found: seq<Pattern>)
    ensures var groups := GroupBy(SplitByGroup(found).0, GroupKey);
      forall i :: 0 <= i < |groups| ==>
        && groups[i].0 != ""
        && groups[i].1 != []
        && groups[i].1 == Filter(found, ListedInGroup(groups[i].0))
  {
    var grouped := SplitByGroup(found).0;
    var groups := GroupBy(grouped, GroupKey);
    GroupByIsGrouping(grouped, GroupKey);
    SplitIsStablePartition(found);
    forall i | 0 <= i < |groups|
      ensures groups[i].0 != "" && groups[i].1 != [] && groups[i].1 == Filter(found, ListedInGroup(groups[i].0))
    {
      var p := groups[i].1[0];
      assert p in groups[i].1;
      BucketIsLabelled(found, groups[i].0);
    }
  }

  lemma GroupsCoverLabelled(found: seq<Pattern>)
    ensures forall p :: p in found && IsListed(p) && HasGroupLabel(p) ==>
      p.group.value in Labels(GroupBy(SplitByGroup(found).0, GroupKey))
  {
    forall p | p in found && IsListed(p) && HasGroupLabel(p)
      ensures p.group.value in Labels(GroupBy(SplitByGroup(found).0, GroupKey))
    {
      var i := BucketOf(found, p);
      var groups := GroupBy(SplitByGroup(found).0, GroupKey);
      assert Labels(groups)[i] == groups[i].0;
    }
  }

  /** The bucket a labelled listed pattern is filed in. */
  lemma BucketOf(found: seq<Pattern>, p: Pattern) returns (i: nat)
    requires p in found && IsListed(p) && HasGroupLabel(p)
    ensures var groups := GroupBy(SplitByGroup(found).0, GroupKey);
      i < |groups| && groups[i].0 == GroupKey(p)
  {
    var grouped := SplitByGroup(found).0;
    GroupByIsGrouping(grouped, GroupKey);
    IsGroupedPolarity(p);
    assert p in ListedPatterns(found);
    assert p in grouped;
    i :| 0 <= i < |GroupBy(grouped, GroupKey)| && GroupBy(grouped, GroupKey)[i].0 == GroupKey(p);
  }

  /**
   Every listed pattern is drawn exactly once: the buckets laid end to end,
   followed by the ungrouped patterns, are a permutation of the listed patterns.
   */
  lemma SectionIsPermutation(library: PatternLibrary, found: seq<Pattern>)
    ensures var s := LibrarySectionOf(library, found);
      s.Folder? ==> multiset(Flatten(s.groups)) + multiset(s.ungrouped) == multiset(ListedPatterns(found))
  {
    SplitIsStablePartition(found);
    GroupByIsPermutation(SplitByGroup(found).0, GroupKey);
  }

  /** No synthetic page is drawn, in a bucket or among the ungrouped patterns. */
  lemma SectionHasNoSyntheticPage(library: PatternLibrary, found: seq<Pattern>)
    ensures var s := LibrarySectionOf(library, found);
      s.Folder? ==>
        && (forall p :: p in Flatten(s.groups) ==> p.patternType != SyntheticPage)
        && (forall p :: p in s.ungrouped ==> p.patternType != SyntheticPage)
  {
    var s := LibrarySectionOf(library, found);
    if s.Folder? {
      SectionIsPermutation(library, found);
      var listed := ListedPatterns(found);
      var drawn := multiset(Flatten(s.groups)) + multiset(s.ungrouped);
      assert drawn == multiset(listed);
      forall p | p in Flatten(s.groups) || p in s.ungrouped
        ensures p.patternType != SyntheticPage
      {
        assert p in drawn;
        assert p in listed;
      }
    }
  }

  lemma GroupedNonEmpty(found: seq<Pattern>)
    ensures SplitByGroup(found).0 != [] <==> exists p :: p in found && IsListed(p) && HasGroupLabel(p)
  {
    var grouped := SplitByGroup(found).0;
    var listed := ListedPatterns(found);
    assert grouped == Filter(listed, IsGrouped(true));
    if grouped != [] {
      var p := grouped[0];
      assert p in grouped;
      IsGroupedPolarity(p);
    }
    if exists p :: p in found && IsListed(p) && HasGroupLabel(p) {
      var p :| p in found && IsListed(p) && HasGroupLabel(p);
      IsGroupedPolarity(p);
      assert p in listed;
      assert p in grouped;
    }
  }

  lemma UngroupedNonEmpty(found: seq<Pattern>)
    ensures SplitByGroup(found).1 != [] <==> exists p :: p in found && ListedUngrouped(p)
  {
    var ungrouped := SplitByGroup(found).1;
    var listed := ListedPatterns(found);
    assert ungrouped == Filter(listed, Not(IsGrouped(true)));
    if ungrouped != [] {
      var p := ungrouped[0];
      assert p in ungrouped;
      IsGroupedPolarity(p);
    }
    if exists p :: p in found && ListedUngrouped(p) {
      var p :| p in found && ListedUngrouped(p);
      IsGroupedPolarity(p);
      assert p in listed;
      assert p in ungrouped;
    }
  }

  /**
   "Other Components" is drawn exactly when the library lists both a pattern
   with a group label and one without.
   */
  lemma SectionOtherLabel(library: PatternLibrary, found: seq<Pattern>)
    ensures var s := LibrarySectionOf(library, found);
      s.Folder? ==>
        (s.otherLabel <==>
          (exists p :: p in found && IsListed(p) && HasGroupLabel(p)) &&
          (exists p :: p in found && ListedUngrouped(p)))
  {
    var (grouped, ungrouped) := SplitByGroup(found);
    OtherLabelDrawnWhenBoth(grouped, ungrouped);
    GroupedNonEmpty(found);
    UngroupedNonEmpty(found);
  }

  // ------------------------------------------------------------ drawn rows

  /** One line of a drawn section, top to bottom. */
  datatype Row = GroupHeading(name: string) | OtherHeading | PatternRow(pattern: Pattern)

  function PatternRows(ps: seq<Pattern>): seq<Row> {
    if ps == [] then [] else [PatternRow(ps[0])] + PatternRows(ps[1..])
  }

  /** Each bucket as its name followed by its patterns (the `entries(..).map(..)`). */
  function GroupRows(groups: seq<Group>): seq<Row> {
    if groups == [] then []
    else [GroupHeading(groups[0].0)] + PatternRows(groups[0].1) + GroupRows(groups[1..])
  }

  /** The children of the folder view in order: buckets, the label, the ungrouped patterns. */
  function Rows(s: LibrarySection): seq<Row> {
    match s
    case Nothing => []
    case Folder(_, groups, otherLabel, ungrouped) =>
      GroupRows(groups) + (if otherLabel then [OtherHeading] else []) + PatternRows(ungrouped)
  }

  /** A row of the trailing part: the "Other Components" label or an unlabelled pattern. */
  predicate IsTrailing(r: Row) {
    r.OtherHeading? || (r.PatternRow? && !HasGroupLabel(r.pattern))
  }

  lemma {:induction false} PatternRowsAt(ps: seq<Pattern>)
    ensures |PatternRows(ps)| == |ps|
    ensures forall i :: 0 <= i < |ps| ==> PatternRows(ps)[i] == PatternRow(ps[i])
  {
    if ps != [] {
      PatternRowsAt(ps[1..]);
    }
  }

  lemma {:induction false} GroupRowsLabelled(groups: seq<Group>)
    requires forall i, p :: 0 <= i < |groups| && p in groups[i].1 ==> HasGroupLabel(p)
    ensures forall r :: r in GroupRows(groups) ==> !IsTrailing(r)
  {
    if groups != [] {
      GroupRowsLabelled(groups[1..]);
      PatternRowsAt(groups[0].1);
      assert forall p :: p in groups[0].1 ==> HasGroupLabel(p);
      forall r | r in PatternRows(groups[0].1)
        ensures !IsTrailing(r)
      {
        var k :| 0 <= k < |groups[0].1| && PatternRows(groups[0].1)[k] == r;
        assert groups[0].1[k] in groups[0].1;
      }
    }
  }

  /** The row order of any drawn section whose buckets are labelled and whose rest is not. */
  lemma RowsOrderOf(s: LibrarySection)
    requires s.Folder?
    requires forall i, p :: 0 <= i < |s.groups| && p in s.groups[i].1 ==> HasGroupLabel(p)
    requires forall p :: p in s.ungrouped ==> !HasGroupLabel(p)
    ensures var rows := Rows(s);
      forall i, j :: 0 <= i < j < |rows| && IsTrailing(rows[i]) ==>
        rows[j].PatternRow? && !HasGroupLabel(rows[j].pattern)
  {
    GroupRowsLabelled(s.groups);
    PatternRowsAt(s.ungrouped);
    var a := GroupRows(s.groups);
    var b: seq<Row> := if s.otherLabel then [OtherHeading] else [];
    var c := PatternRows(s.ungrouped);
    var rows := Rows(s);
    assert rows == a + b + c;
    forall i, j | 0 <= i < j < |rows| && IsTrailing(rows[i])
      ensures rows[j].PatternRow? && !HasGroupLabel(rows[j].pattern)
    {
      var k := j - |a| - |b|;
      assert 0 <= k < |c| && rows[j] == c[k];
      assert s.ungrouped[k] in s.ungrouped;
    }
  }

  /**
   Once the "Other Components" label or an ungrouped pattern has been drawn,
   only ungrouped patterns follow: every group heading and grouped pattern
   comes before them.
   */
  lemma RowsOrder(library: PatternLibrary, found: seq<Pattern>)
    ensures var rows := Rows(LibrarySectionOf(library, found));
      forall i, j :: 0 <= i < j < |rows| && IsTrailing(rows[i]) ==>
        rows[j].PatternRow? && !HasGroupLabel(rows[j].pattern)
  {
    var s := LibrarySectionOf(library, found);
    if s.Folder? {
      SectionGroups(library, found);
      SplitIsStablePartition(found);
      assert s.ungrouped == SplitByGroup(found).1;
      forall i, p | 0 <= i < |s.groups| && p in s.groups[i].1
        ensures HasGroupLabel(p)
      {
        assert p in Filter(found, ListedInGroup(s.groups[i].0));
        assert ListedInGroup(s.groups[i].0)(p);
      }
      forall p | p in s.ungrouped
        ensures !HasGroupLabel(p)
      {
      }
      RowsOrderOf(s);
    }
  }

  /** The patterns of a run of rows, top to bottom. */
  function PatternsOf(rows: seq<Row>): seq<Pattern> {
    if rows == [] then []
    else (if rows[0].PatternRow? then [rows[0].pattern] else []) + PatternsOf(rows[1..])
  }

  /** The group headings of a run of rows, top to bottom. */
  function HeadingsOf(rows: seq<Row>): seq<string> {
    if rows == [] then []
    else (if rows[0].GroupHeading? then [rows[0].name] else []) + HeadingsOf(rows[1..])
  }

  /** The name of the nearest group heading above row `j`, if there is one. */
  function HeadingAbove(rows: seq<Row>, j: nat): Option<string>
    requires j <= |rows|
  {
    if j == 0 then None
    else if rows[j - 1].GroupHeading? then Some(rows[j - 1].name)
    else HeadingAbove(rows, j - 1)
  }

  lemma {:induction false} RowsOfAppend(a: seq<Row>, b: seq<Row>)
    ensures PatternsOf(a + b) == PatternsOf(a) + PatternsOf(b)
    ensures HeadingsOf(a + b) == HeadingsOf(a) + HeadingsOf(b)
    ensures OtherHeading in a + b <==> OtherHeading in a || OtherHeading in b
  {
    if a != [] {
      assert (a + b)[1..] == a[1..] + b;
      RowsOfAppend(a[1..], b);
    } else {
      assert a + b == b;
    }
  }

  lemma {:induction false} PatternRowsContent(ps: seq<Pattern>)
    ensures PatternsOf(PatternRows(ps)) == ps
    ensures HeadingsOf(PatternRows(ps)) == []
    ensures OtherHeading !in PatternRows(ps)
  {
    if ps != [] {
      PatternRowsContent(ps[1..]);
      RowsOfAppend([PatternRow(ps[0])], PatternRows(ps[1..]));
      assert [ps[0]] + ps[1..] == ps;
    }
  }

  lemma {:induction false} GroupRowsContent(groups: seq<Group>)
    ensures PatternsOf(GroupRows(groups)) == Flatten(groups)
    ensures HeadingsOf(GroupRows(groups)) == Labels(groups)
    ensures OtherHeading !in GroupRows(groups)
  {
    if groups != [] {
      GroupRowsContent(groups[1..]);
      PatternRowsContent(groups[0].1);
      var h := [GroupHeading(groups[0].0)];
      RowsOfAppend(h, PatternRows(groups[0].1));
      RowsOfAppend(h + PatternRows(groups[0].1), GroupRows(groups[1..]));
      assert Labels(groups) == [groups[0].0] + Labels(groups[1..]);
    }
  }

  /**
   What a drawn section's rows hold: its bucket patterns then its ungrouped
   patterns, its labels in bucket order, and the "Other Components" label
   exactly when the section draws it. A section that draws nothing has no rows.
   */
  lemma RowsContent(s: LibrarySection)
    ensures s.Nothing? ==> Rows(s) == []
    ensures s.Folder? ==>
      && PatternsOf(Rows(s)) == Flatten(s.groups) + s.ungrouped
      && HeadingsOf(Rows(s)) == Labels(s.groups)
      && (OtherHeading in Rows(s) <==> s.otherLabel)
  {
    if s.Folder? {
      FolderRowsContent(GroupRows(s.groups), s.otherLabel, PatternRows(s.ungrouped));
      GroupRowsContent(s.groups);
      PatternRowsContent(s.ungrouped);
    }
  }

  lemma FolderRowsContent(a: seq<Row>, otherLabel: bool, c: seq<Row>)
    ensures var rows := a + (if otherLabel then [OtherHeading] else []) + c;
      && PatternsOf(rows) == PatternsOf(a) + PatternsOf(c)
      && HeadingsOf(rows) == HeadingsOf(a) + HeadingsOf(c)
      && (OtherHeading in rows <==> otherLabel || OtherHeading in a || OtherHeading in c)
  {
    var b: seq<Row> := if otherLabel then [OtherHeading] else [];
    RowsOfAppend(a, b);
    RowsOfAppend(a + b, c);
    assert PatternsOf(b) == [] && HeadingsOf(b) == [];
  }

  lemma {:induction false} HeadingAbovePrefix(a: seq<Row>, b: seq<Row>, j: nat)
    requires j <= |a|
    ensures HeadingAbove(a + b, j) == HeadingAbove(a, j)
  {
    if j > 0 {
      assert (a + b)[j - 1] == a[j - 1];
      HeadingAbovePrefix(a, b, j - 1);
    }
  }

  lemma {:induction false} HeadingAboveShift(a: seq<Row>, b: seq<Row>, j: nat)
    requires j <= |b| && HeadingAbove(b, j).Some?
    ensures HeadingAbove(a + b, |a| + j) == HeadingAbove(b, j)
  {
    assert (a + b)[|a| + j - 1] == b[j - 1];
    if !b[j - 1].GroupHeading? {
      HeadingAboveShift(a, b, j - 1);
    }
  }

  /** Within one bucket's rows, every pattern sits under the bucket's heading. */
  lemma {:induction false} HeadingAboveBucket(k: string, ps: seq<Pattern>, j: nat)
    requires 1 <= j <= 1 + |PatternRows(ps)|
    ensures HeadingAbove([GroupHeading(k)] + PatternRows(ps), j) == Some(k)
  {
    PatternRowsAt(ps);
    if j > 1 {
      HeadingAboveBucket(k, ps, j - 1);
    }
  }

  /** In the group rows, the nearest heading above each pattern is its own group. */
  lemma {:induction false} GroupRowsHeadings(groups: seq<Group>)
    requires forall i, p :: 0 <= i < |groups| && p in groups[i].1 ==> p.group == Some(groups[i].0)
    ensures forall j :: 0 <= j < |GroupRows(groups)| && GroupRows(groups)[j].PatternRow? ==>
      && GroupRows(groups)[j].pattern.group.Some?
      && HeadingAbove(GroupRows(groups), j) == GroupRows(groups)[j].pattern.group
  {
    if groups != [] {
      var k, ps := groups[0].0, groups[0].1;
      var head := [GroupHeading(k)] + PatternRows(ps);
      var rest := GroupRows(groups[1..]);
      var rows := GroupRows(groups);
      assert rows == head + rest;
      PatternRowsAt(ps);
      GroupRowsHeadings(groups[1..]);
      forall j | 0 <= j < |rows| && rows[j].PatternRow?
        ensures rows[j].pattern.group.Some? && HeadingAbove(rows, j) == rows[j].pattern.group
      {
        if j < |head| {
          assert head[0] == GroupHeading(k) && j >= 1;
          assert rows[j] == PatternRow(ps[j - 1]);
          assert ps[j - 1] in groups[0].1;
          HeadingAbovePrefix(head, rest, j);
          HeadingAboveBucket(k, ps, j);
        } else {
          var j' := j - |head|;
          assert rows[j] == rest[j'] && rest[j'].PatternRow?;
          assert HeadingAbove(rest, j') == rest[j'].pattern.group;
          HeadingAboveShift(head, rest, j');
        }
      }
    }
  }

  /**
   Every grouped pattern of a drawn section is drawn under the heading of its
   own group: the nearest group heading above it carries its label.
   */
  lemma RowsHeadings(library: PatternLibrary, found: seq<Pattern>)
    ensures var rows := Rows(LibrarySectionOf(library, found));
      forall j :: 0 <= j < |rows| && rows[j].PatternRow? && HasGroupLabel(rows[j].pattern) ==>
        HeadingAbove(rows, j) == rows[j].pattern.group
  {
    var s := LibrarySectionOf(library, found);
    if s.Folder? {
      BucketsCarryTheirLabel(library, found);
      UngroupedUnlabelled(library, found);
      FolderHeadings(s);
    }
  }

  /** The nearest-heading property for any folder whose buckets carry their own labels. */
  lemma FolderHeadings(s: LibrarySection)
    requires s.Folder?
    requires forall i, p :: 0 <= i < |s.groups| && p in s.groups[i].1 ==> p.group == Some(s.groups[i].0)
    requires forall p :: p in s.ungrouped ==> !HasGroupLabel(p)
    ensures var rows := Rows(s);
      forall j :: 0 <= j < |rows| && rows[j].PatternRow? && HasGroupLabel(rows[j].pattern) ==>
        HeadingAbove(rows, j) == rows[j].pattern.group
  {
    GroupRowsHeadings(s.groups);
    TrailingRows(s);
    var a := GroupRows(s.groups);
    var rest: seq<Row> := (if s.otherLabel then [OtherHeading] else []) + PatternRows(s.ungrouped);
    assert Rows(s) == a + rest;
    HeadingsOverTrailing(a, rest);
  }

  /** Labelled pattern rows can only come from the part above the trailing rows. */
  lemma HeadingsOverTrailing(a: seq<Row>, rest: seq<Row>)
    requires forall j :: 0 <= j < |a| && a[j].PatternRow? ==> HeadingAbove(a, j) == a[j].pattern.group
    requires forall j :: |a| <= j < |a + rest| ==> IsTrailing((a + rest)[j])
    ensures forall j :: 0 <= j < |a + rest| && (a + rest)[j].PatternRow? && HasGroupLabel((a + rest)[j].pattern) ==>
      HeadingAbove(a + rest, j) == (a + rest)[j].pattern.group
  {
    forall j | 0 <= j < |a + rest| && (a + rest)[j].PatternRow? && HasGroupLabel((a + rest)[j].pattern)
      ensures HeadingAbove(a + rest, j) == (a + rest)[j].pattern.group
    {
      assert j < |a|;
      assert (a + rest)[j] == a[j];
      HeadingAbovePrefix(a, rest, j);
    }
  }

  lemma BucketsCarryTheirLabel(library: PatternLibrary, found: seq<Pattern>)
    ensures var s := LibrarySectionOf(library, found);
      s.Folder? ==> forall i, p :: 0 <= i < |s.groups| && p in s.groups[i].1 ==> p.group == Some(s.groups[i].0)
  {
    var s := LibrarySectionOf(library, found);
    if s.Folder? {
      SectionGroups(library, found);
      forall i, p | 0 <= i < |s.groups| && p in s.groups[i].1
        ensures p.group == Some(s.groups[i].0)
      {
        assert p in Filter(found, ListedInGroup(s.groups[i].0));
        assert ListedInGroup(s.groups[i].0)(p);
      }
    }
  }

  lemma UngroupedUnlabelled(library: PatternLibrary, found: seq<Pattern>)
    ensures var s := LibrarySectionOf(library, found);
      s.Folder? ==> forall p :: p in s.ungrouped ==> !HasGroupLabel(p)
  {
    SectionUngrouped(library, found);
  }

  /** Below the group rows, every row is the label or an unlabelled pattern. */
  lemma TrailingRows(s: LibrarySection)
    requires s.Folder?
    requires forall p :: p in s.ungrouped ==> !HasGroupLabel(p)
    ensures forall j :: |GroupRows(s.groups)| <= j < |Rows(s)| ==> IsTrailing(Rows(s)[j])
  {
    PatternRowsAt(s.ungrouped);
    var a := GroupRows(s.groups);
    var b: seq<Row> := if s.otherLabel then [OtherHeading] else [];
    var c := PatternRows(s.ungrouped);
    assert Rows(s) == a + b + c;
    forall j | |a| <= j < |Rows(s)|
      ensures IsTrailing(Rows(s)[j])
    {
      if j >= |a| + |b| {
        var k := j - |a| - |b|;
        assert Rows(s)[j] == c[k];
        assert s.ungrouped[k] in s.ungrouped;
      }
    }
  }

  // ------------------------------------------------------------ whole list

  /** What the pattern list draws: nothing, or one entry per library. */
  datatype PatternListView = NoRender | Sections(sections: seq<LibrarySection>)

  /**
   `PatternListContainer.render`. The project's search (`search`) is asked once
   for the current search term; each library of the store is given the same
   result and asked for its matching patterns (`getPatterns`).
   */
  function PatternListOf<P>(
    project: Option<P>, term: string, libraries: seq<PatternLibrary>,
    search: (P, string) -> seq<string>,
    getPatterns: (PatternLibrary, seq<string>) -> seq<Pattern>
  ): PatternListView
  {
    match project
    case None => NoRender
    case Some(p) =>
      var searchResult := search(p, term);
      Sections(seq(|libraries|, i requires 0 <= i < |libraries| =>
        LibrarySectionOf(libraries[i], getPatterns(libraries[i], searchResult))))
  }

  /**
   Without a project nothing is drawn; with one, there is exactly one entry per
   library, in the store's order, each computed from that library's hits for
   the one search result, and each drawn entry headed by its own library.
   */
  lemma PatternListLayout<P>(
    project: Option<P>, term: string, libraries: seq<PatternLibrary>,
    search: (P, string) -> seq<string>,
    getPatterns: (PatternLibrary, seq<string>) -> seq<Pattern>)
    ensures var v := PatternListOf(project, term, libraries, search, getPatterns);
      && (v.NoRender? <==> project.None?)
      && (project.Some? ==>
            && |v.sections| == |libraries|
            && forall i :: 0 <= i < |libraries| ==>
                 && v.sections[i] == LibrarySectionOf(libraries[i], getPatterns(libraries[i], search(project.value, term)))
                 && (v.sections[i].Folder? ==> v.sections[i].heading == Heading(libraries[i])))
  {
  }

  // -------------------------------------------------------------- example

  lemma PartitionOfFour<T>(x1: T, x2: T, x3: T, x4: T, p: T -> bool)
    requires p(x1) && !p(x2) && p(x3) && !p(x4)
    ensures Partition([x1, x2, x3, x4], p) == ([x1, x3], [x2, x4])
  {
    assert [] + [x1] == [x1] && [] + [x2] == [x2];
    assert [x1] + [x3] == [x1, x3] && [x2] + [x4] == [x2, x4];
    assert [x1] + [x2] == [x1, x2] && [x1, x2] + [x3] == [x1, x2, x3];
    assert [x1, x2, x3] + [x4] == [x1, x2, x3, x4];
    assert Partition([], p) == ([], []);
    PartitionSnoc([], x1, p);
    PartitionSnoc([x1], x2, p);
    PartitionSnoc([x1, x2], x3, p);
    PartitionSnoc([x1, x2, x3], x4, p);
  }

  lemma GroupByOfTwo<T, K>(x1: T, x2: T, key: T -> K)
    requires key(x1) == key(x2)
    ensures GroupBy([x1, x2], key) == [(key(x1), [x1, x2])]
  {
    assert [] + [x1] == [x1] && [x1] + [x2] == [x1, x2];
    GroupBySnoc([], x1, key);
    GroupBySnoc([x1], x2, key);
  }

  /**
   Patterns 1 and 3 in group "Layout", 2 with group `''` and 4 without a group:
   one bucket "Layout" with 1 and 3, then the label, then 2 and 4.
   */
  lemma LayoutExample(p1: Pattern, p2: Pattern, p3: Pattern, p4: Pattern, library: PatternLibrary)
    requires IsListed(p1) && IsListed(p2) && IsListed(p3) && IsListed(p4)
    requires p1.group == Some("Layout") && p3.group == Some("Layout")
    requires p2.group == Some("") && p4.group == None
    requires library.displayName == ""
    ensures LibrarySectionOf(library, [p1, p2, p3, p4]) ==
      Folder(library.name, [("Layout", [p1, p3])], true, [p2, p4])
  {
    ExampleSplit(p1, p2, p3, p4);
    SectionOfSplit(library, [p1, p2, p3, p4], [p1, p3], [p2, p4]);
    GroupByOfTwo(p1, p3, GroupKey);
    assert Draws(OtherLabelChild([p1, p3], [p2, p4]));
  }

  lemma ExampleSplit(p1: Pattern, p2: Pattern, p3: Pattern, p4: Pattern)
    requires IsListed(p1) && IsListed(p2) && IsListed(p3) && IsListed(p4)
    requires HasGroupLabel(p1) && !HasGroupLabel(p2) && HasGroupLabel(p3) && !HasGroupLabel(p4)
    ensures ListedPatterns([p1, p2, p3, p4]) != []
    ensures SplitByGroup([p1, p2, p3, p4]) == ([p1, p3], [p2, p4])
  {
    ExampleListed(p1, p2, p3, p4);
    IsGroupedPolarity(p1);
    IsGroupedPolarity(p2);
    IsGroupedPolarity(p3);
    IsGroupedPolarity(p4);
    PartitionOfFour(p1, p2, p3, p4, IsGrouped(true));
  }

  lemma ExampleListed(p1: Pattern, p2: Pattern, p3: Pattern, p4: Pattern)
    requires IsListed(p1) && IsListed(p2) && IsListed(p3) && IsListed(p4)
    ensures ListedPatterns([p1, p2, p3, p4]) == [p1, p2, p3, p4]
  {
    FilterAll([p1, p2, p3, p4], IsListed);
  }

  lemma SectionOfSplit(library: PatternLibrary, found: seq<Pattern>, grouped: seq<Pattern>, ungrouped: seq<Pattern>)
    requires ListedPatterns(found) != []
    requires SplitByGroup(found) == (grouped, ungrouped)
    ensures LibrarySectionOf(library, found) ==
      Folder(Heading(library), GroupBy(grouped, GroupKey), Draws(OtherLabelChild(grouped, ungrouped)), ungrouped)
  {
  }
}
