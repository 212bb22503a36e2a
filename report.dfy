/**
 * The mutation tester's report: one entry per mutant, each listing the
 * modifications applied to the original file, and the plain-text rendering
 * of the whole report, one line per `writeln`.
 */
module MutatorReport {
  import opened Primitives
  import opened Seqs

  // ---------------------------------------------------------------------------
  // Records

  /** The two bounds of a `Range`, as stored. */
  datatype Bounds = Bounds(start: usize, end: usize)

  /**
   * `Range`: where a modification sits in the source file. Its start never lies
   * after its end, since `Range::new` is the only way to build one.
   */
  type Range = r: Bounds | r.start <= r.end witness Bounds(0, 0)

  /** `Range::new`: the start may not lie after the end (the source asserts it). */
  function NewRange(start: usize, end: usize): (r: Range)
    requires start <= end
    ensures r.start == start && r.end == end
  {
    Bounds(start, end)
  }

  /** `Mutation`: one modification, made by a named operator, from an old to a new value. */
  datatype Mutation = Mutation(changedPlace: Range, operatorName: string, oldValue: string, newValue: string)

  /**
   * A `MutationReport` once it is in a report: the mutant's path, the
   * original file's path (both as displayed), the modifications and the diff.
   */
  datatype ReportEntry = ReportEntry(mutantPath: string, originalFile: string, mutations: seq<Mutation>, diff: string)

  /** `MutationReport`: an entry under construction, to which modifications are added. */
  class MutationReport {
    const mutantPath: string
    const originalFile: string
    var mutations: seq<Mutation>
    const diff: string

    /** `MutationReport::new`, with the patch text between the two sources given. */
    constructor (mutantPath: string, originalFile: string, diff: string)
      ensures this.mutantPath == mutantPath && this.originalFile == originalFile && this.diff == diff
      ensures mutations == []
    {
      this.mutantPath := mutantPath;
      this.originalFile := originalFile;
      this.diff := diff;
      mutations := [];
    }

    /** `add_modification`: appends at the end. */
    method AddModification(modification: Mutation)
      modifies this
      ensures mutations == old(mutations) + [modification]
    {
      mutations := mutations + [modification];
    }

    /** The value the report keeps when this entry is added to it. */
    function Value(): ReportEntry
      reads this
    {
      ReportEntry(mutantPath, originalFile, mutations, diff)
    }
  }

  /** `Report`: the entries in the order they were added. */
  class Report {
    var mutants: seq<ReportEntry>

    /** `Report::new`: no entries. */
    constructor ()
      ensures mutants == []
    {
      mutants := [];
    }

    /** `add_entry`: the entry goes after all earlier ones, which stay as they were. */
    method AddEntry(entry: MutationReport)
      modifies this
      ensures mutants == old(mutants) + [entry.Value()]
    {
      mutants := mutants + [entry.Value()];
    }

    /** `save_to_text_file`: the lines written, in order, one per `writeln`. */
    method SaveToTextFile() returns (lines: seq<string>)
      ensures lines == ReportLines(mutants)
    {
      lines := [];
      for i := 0 to |mutants|
        invariant lines == ReportLines(mutants[..i])
      {
        var entry := mutants[i];
        ghost var before := lines;
        lines := lines + ["Mutant path: " + entry.mutantPath];
        lines := lines + ["Original file: " + entry.originalFile];
        lines := lines + ["Mutations:"];
        HeaderWrites(before, entry);
        for j := 0 to |entry.mutations|
          invariant lines == before + Header(entry) + FlatMap(MutationLines, entry.mutations[..j])
        {
          var modification := entry.mutations[j];
          ghost var done := lines;
          lines := lines + ["  Operator: " + modification.operatorName];
          lines := lines + ["  Old value: " + modification.oldValue];
          lines := lines + ["  New value: " + modification.newValue];
          lines := lines + ["  Changed place: " + Decimal(modification.changedPlace.start) + "-"
                            + Decimal(modification.changedPlace.end)];
          MutationWrites(done, modification);
          FlatMapExtend(MutationLines, before + Header(entry), entry.mutations, j);
        }
        assert entry.mutations[..|entry.mutations|] == entry.mutations;
        ghost var body := lines;
        lines := lines + ["Diff:"];
        lines := lines + [entry.diff];
        lines := lines + [Separator];
        TrailerWrites(before, entry, body);
        FlatMapStep(EntryLines, mutants, i);
      }
      assert mutants[..|mutants|] == mutants;
    }
  }

  // ---------------------------------------------------------------------------
  // Text rendering

  /** The line closing every entry: forty dashes. */
  const Separator: string := "----------------------------------------"

  /** `Display` of an unsigned integer: at least one decimal digit, and no leading zero. */
  function Decimal(n: nat): (r: string)
    ensures r != []
    ensures forall k :: 0 <= k < |r| ==> '0' <= r[k] <= '9'
    ensures |r| > 1 ==> r[0] != '0'
  {
    if n < 10 then [DigitChar(n)]
    else
      var r := Decimal(n / 10) + [DigitChar(n % 10)];
      assert r[0] == Decimal(n / 10)[0];
      r
  }

  function DigitChar(d: nat): (c: char)
    requires d < 10
    ensures '0' <= c <= '9'
  {
    ('0' as int + d) as char
  }

  /** The value of a string of decimal digits. */
  function DecimalValue(s: string): nat
  {
    if s == [] then 0
    else
      var c := s[|s| - 1];
      10 * DecimalValue(s[..|s| - 1]) + (if '0' <= c <= '9' then c as int - '0' as int else 0)
  }

  /** What `Decimal` writes reads back as the number. */
  lemma {:induction false} DecimalRoundTrip(n: nat)
    ensures DecimalValue(Decimal(n)) == n
  {
    if n >= 10 {
      DecimalRoundTrip(n / 10);
      var s := Decimal(n);
      assert s[..|s| - 1] == Decimal(n / 10);
    }
  }

  /** Distinct numbers are written differently. */
  lemma DecimalInjective(m: nat, n: nat)
    requires Decimal(m) == Decimal(n)
    ensures m == n
  {
    DecimalRoundTrip(m);
    DecimalRoundTrip(n);
  }

  /** The four lines of one modification. */
  function MutationLines(m: Mutation): (r: seq<string>)
    ensures |r| == 4
  {
    [ "  Operator: " + m.operatorName,
      "  Old value: " + m.oldValue,
      "  New value: " + m.newValue,
      "  Changed place: " + Decimal(m.changedPlace.start) + "-" + Decimal(m.changedPlace.end) ]
  }

  /** The three lines opening an entry. */
  function Header(e: ReportEntry): seq<string>
  {
    ["Mutant path: " + e.mutantPath, "Original file: " + e.originalFile, "Mutations:"]
  }

  /** All lines of one entry. */
  function EntryLines(e: ReportEntry): seq<string>
  {
    Header(e) + FlatMap(MutationLines, e.mutations) + ["Diff:", e.diff, Separator]
  }

  lemma HeaderWrites(before: seq<string>, e: ReportEntry)
    ensures before + ["Mutant path: " + e.mutantPath] + ["Original file: " + e.originalFile] + ["Mutations:"]
      == before + Header(e)
  {
  }

  lemma MutationWrites(done: seq<string>, m: Mutation)
    ensures done + ["  Operator: " + m.operatorName] + ["  Old value: " + m.oldValue] + ["  New value: " + m.newValue]
      + ["  Changed place: " + Decimal(m.changedPlace.start) + "-" + Decimal(m.changedPlace.end)]
      == done + MutationLines(m)
  {
  }

  lemma TrailerWrites(before: seq<string>, e: ReportEntry, body: seq<string>)
    requires body == before + Header(e) + FlatMap(MutationLines, e.mutations)
    ensures body + ["Diff:"] + [e.diff] + [Separator] == before + EntryLines(e)
  {
  }

  /** All lines of a report, entry after entry. */
  function ReportLines(es: seq<ReportEntry>): seq<string>
  {
    FlatMap(EntryLines, es)
  }

  /** The modifications' lines come four by four, in the order of the modifications. */
  lemma {:induction false} MutationLinesAt(ms: seq<Mutation>)
    ensures |FlatMap(MutationLines, ms)| == 4 * |ms|
    ensures forall k :: 0 <= k < |ms| ==> FlatMap(MutationLines, ms)[4 * k..4 * k + 4] == MutationLines(ms[k])
  {
    if ms != [] {
      var init := ms[..|ms| - 1];
      MutationLinesAt(init);
      assert init == ms[..|ms| - 1];
      var lines := FlatMap(MutationLines, ms);
      assert lines == FlatMap(MutationLines, init) + MutationLines(ms[|ms| - 1]);
      forall k | 0 <= k < |ms|
        ensures lines[4 * k..4 * k + 4] == MutationLines(ms[k])
      {
        if k < |ms| - 1 {
          assert lines[4 * k..4 * k + 4] == FlatMap(MutationLines, init)[4 * k..4 * k + 4];
        }
      }
    }
  }

  /**
   * An entry renders as `6 + 4 * |mutations|` lines: the mutant path, the
   * original file, `Mutations:`, four lines per modification in order, then
   * `Diff:`, the diff and the separator.
   */
  lemma EntryLinesLayout(e: ReportEntry)
    ensures var lines, n := EntryLines(e), |e.mutations|;
      |lines| == 6 + 4 * n &&
      lines[0] == "Mutant path: " + e.mutantPath &&
      lines[1] == "Original file: " + e.originalFile &&
      lines[2] == "Mutations:" &&
      (forall k :: 0 <= k < n ==> lines[3 + 4 * k..7 + 4 * k] == MutationLines(e.mutations[k])) &&
      lines[3 + 4 * n] == "Diff:" && lines[4 + 4 * n] == e.diff && lines[5 + 4 * n] == Separator
  {
    MutationLinesAt(e.mutations);
    var body := FlatMap(MutationLines, e.mutations);
    var lines := EntryLines(e);
    forall k | 0 <= k < |e.mutations|
      ensures lines[3 + 4 * k..7 + 4 * k] == MutationLines(e.mutations[k])
    {
      assert lines[3 + 4 * k..7 + 4 * k] == body[4 * k..4 * k + 4];
    }
  }

  /** Rendering after `add_entry(e)` is the earlier rendering followed by the lines of `e`. */
  lemma ReportLinesAppend(es: seq<ReportEntry>, e: ReportEntry)
    ensures ReportLines(es + [e]) == ReportLines(es) + EntryLines(e)
  {
    FlatMapAppend(EntryLines, es, [e]);
    assert FlatMap(EntryLines, [e]) == FlatMap(EntryLines, []) + EntryLines(e);
  }

  /** A report with no entries renders as nothing. */
  lemma ReportLinesEmpty()
    ensures ReportLines([]) == []
  {
  }

  /**
   * The report built in the source's own text-file test, rendered: ten lines,
   * the modification's place among them as `0-10`.
   */
  method SaveSingleMutantReport(diff: string) returns (lines: seq<string>)
    ensures lines == [ "Mutant path: file", "Original file: original_file", "Mutations:",
                       "  Operator: operator", "  Old value: old", "  New value: new",
                       "  Changed place: 0-10", "Diff:", diff, Separator ]
  {
    var report := new Report();
    var range := NewRange(0, 10);
    var modification := Mutation(range, "operator", "old", "new");
    var entry := new MutationReport("file", "original_file", diff);
    entry.AddModification(modification);
    report.AddEntry(entry);
    lines := report.SaveToTextFile();
    assert report.mutants == [ReportEntry("file", "original_file", [modification], diff)];
    SingleMutantLines(diff);
  }

  lemma SingleMutantLines(diff: string)
    ensures ReportLines([ReportEntry("file", "original_file", [Mutation(Bounds(0, 10), "operator", "old", "new")], diff)])
      == [ "Mutant path: file", "Original file: original_file", "Mutations:",
           "  Operator: operator", "  Old value: old", "  New value: new",
           "  Changed place: 0-10", "Diff:", diff, Separator ]
  {
    var modification := Mutation(Bounds(0, 10), "operator", "old", "new");
    var value := ReportEntry("file", "original_file", [modification], diff);
    var header := ["Mutant path: file", "Original file: original_file", "Mutations:"];
    var body := ["  Operator: operator", "  Old value: old", "  New value: new", "  Changed place: 0-10"];
    var trailer := ["Diff:", diff, Separator];
    FlatMapSingle(EntryLines, value);
    FlatMapSingle(MutationLines, modification);
    SingleMutationLines();
    assert Header(value) == header by {
      assert "Mutant path: " + "file" == "Mutant path: file";
      assert "Original file: " + "original_file" == "Original file: original_file";
    }
    assert EntryLines(value) == header + body + trailer;
  }

  lemma SingleMutationLines()
    ensures MutationLines(Mutation(Bounds(0, 10), "operator", "old", "new"))
      == ["  Operator: operator", "  Old value: old", "  New value: new", "  Changed place: 0-10"]
  {
    assert Decimal(0) == "0" && Decimal(10) == "10";
    assert "  Changed place: " + "0" + "-" + "10" == "  Changed place: 0-10";
    assert "  Operator: " + "operator" == "  Operator: operator";
    assert "  Old value: " + "old" == "  Old value: old";
    assert "  New value: " + "new" == "  New value: new";
  }
}
