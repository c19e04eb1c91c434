/**
  The test driver: `RunTests` selects the catalog's cases for one game,
  skips those the configuration names, runs each remaining case through
  `RunTest` on the old and new binder tools' output directories, and counts.
*/
module TestSuite {
  import opened FileTree
  import opened TreeDiff

  datatype Game = DarkSouls | DarkSoulsRemastered | DarkSoulsII | Bloodborne | DarkSoulsIII | Sekiro

  /** The enum member's name, as `Game.ToString()` writes it. */
  function GameName(g: Game): string {
    match g
    case DarkSouls => "DarkSouls"
    case DarkSoulsRemastered => "DarkSoulsRemastered"
    case DarkSoulsII => "DarkSoulsII"
    case Bloodborne => "Bloodborne"
    case DarkSoulsIII => "DarkSoulsIII"
    case Sekiro => "Sekiro"
  }

  /** One test: an archive of a game, named relative to the game's directory. */
  datatype TestCase = TestCase(game: Game, file: string)

  /** The static catalog of test cases, in catalog order. */
  const TestCases: seq<TestCase> := [
    TestCase(DarkSouls, "dvdbnd0.bdt"),
    TestCase(DarkSouls, "dvdbnd1.bdt"),
    TestCase(DarkSouls, "dvdbnd2.bdt"),
    TestCase(DarkSouls, "dvdbnd3.bdt"),
    TestCase(DarkSoulsII, "GameDataEbl.bdt"),
    TestCase(DarkSoulsII, "LqChrEbl.bdt"),
    TestCase(DarkSoulsII, "LqMapEbl.bdt"),
    TestCase(DarkSoulsII, "LqObjEbl.bdt"),
    TestCase(DarkSoulsII, "LqPartsEbl.bdt"),
    TestCase(DarkSoulsII, "enc_regulation.bnd.dcx"),
    TestCase(DarkSoulsIII, "Data0.bdt"),
    TestCase(DarkSoulsIII, "Data1.bdt"),
    TestCase(DarkSoulsIII, "Data2.bdt"),
    TestCase(DarkSoulsIII, "Data3.bdt"),
    TestCase(DarkSoulsIII, "Data4.bdt"),
    TestCase(DarkSoulsIII, "Data5.bdt"),
    TestCase(DarkSoulsIII, "DLC1.bdt"),
    TestCase(DarkSoulsIII, "DLC2.bdt"),
    TestCase(Sekiro, "Data1.bdt"),
    TestCase(Sekiro, "Data2.bdt"),
    TestCase(Sekiro, "Data3.bdt"),
    TestCase(Sekiro, "Data4.bdt"),
    TestCase(Sekiro, "Data5.bdt"),
    TestCase(Sekiro, "Artwork_MiniSoundtrack\\Data.bdt")
  ]

  const Bdt: string := ".bdt"

  /** ".bdt" occurs in `s` at index `i`. */
  predicate BdtAt(s: string, i: int) {
    0 <= i && i + 4 <= |s| && s[i] == '.' && s[i + 1] == 'b' && s[i + 2] == 'd' && s[i + 3] == 't'
  }

  /** `s` has no occurrence of ".bdt". */
  ghost predicate NoBdt(s: string) {
    forall i :: !BdtAt(s, i)
  }

  /**
    `s.Replace(".bdt", "")`: scans left to right and drops every
    non-overlapping occurrence of ".bdt"; the scan resumes after a dropped
    occurrence and does not look again at the text it has passed.
  */
  function RemoveBdt(s: string): (r: string)
    ensures |r| <= |s| && (|s| - |r|) % 4 == 0
    decreases |s|
  {
    if |s| < 4 then s
    else if BdtAt(s, 0) then RemoveBdt(s[4..])
    else [s[0]] + RemoveBdt(s[1..])
  }

  /** A name with no ".bdt" in it is left as it is. */
  lemma {:induction false} RemoveBdtIdentity(s: string)
    requires NoBdt(s)
    ensures RemoveBdt(s) == s
    decreases |s|
  {
    if |s| >= 4 {
      assert !BdtAt(s, 0);
      assert NoBdt(s[1..]) by {
        forall i ensures !BdtAt(s[1..], i) {
          assert !BdtAt(s, i + 1);
        }
      }
      RemoveBdtIdentity(s[1..]);
      assert s == [s[0]] + s[1..];
    }
  }

  /**
    Appending ".bdt" makes no difference to the stripped name: the added
    extension is dropped whole and never combines with the end of `s` into
    another occurrence.
  */
  lemma {:induction false} RemoveBdtTrailing(s: string)
    ensures RemoveBdt(s + Bdt) == RemoveBdt(s)
    decreases |s|
  {
    var t := s + Bdt;
    if s == [] {
      assert t == Bdt && BdtAt(t, 0) && t[4..] == [];
    } else if |s| < 4 {
      assert t[|s|] == '.';
      assert !BdtAt(t, 0);
      assert t[1..] == s[1..] + Bdt;
      RemoveBdtTrailing(s[1..]);
      assert RemoveBdt(s[1..]) == s[1..];
      assert s == [s[0]] + s[1..];
    } else if BdtAt(s, 0) {
      assert BdtAt(t, 0);
      assert t[4..] == s[4..] + Bdt;
      RemoveBdtTrailing(s[4..]);
    } else {
      assert !BdtAt(t, 0);
      assert t[1..] == s[1..] + Bdt;
      RemoveBdtTrailing(s[1..]);
    }
  }

  /** A catalog name "stem.bdt" whose stem has no ".bdt" gives the stem. */
  lemma {:induction false} StripsExtension(stem: string)
    requires NoBdt(stem)
    ensures RemoveBdt(stem + Bdt) == stem
  {
    RemoveBdtTrailing(stem);
    RemoveBdtIdentity(stem);
  }

  /** `Path.Join(outputPath, game.ToString(), file.Replace(".bdt", "") + suffix)`. */
  function OutputDirectory(outputPath: Path, game: Game, file: string, suffix: string): (r: Path)
    ensures |r| == |outputPath| + 2 && outputPath < r
  {
    outputPath + [GameName(game), RemoveBdt(file) + suffix]
  }

  /** Where the old binder tool writes the case's output. */
  function OldDirectory(outputPath: Path, game: Game, file: string): (r: Path)
    ensures |r| == |outputPath| + 2 && outputPath < r
  {
    OutputDirectory(outputPath, game, file, "Old")
  }

  /** Where the new binder tool writes the case's output. */
  function NewDirectory(outputPath: Path, game: Game, file: string): (r: Path)
    ensures |r| == |outputPath| + 2 && outputPath < r
  {
    OutputDirectory(outputPath, game, file, "New")
  }

  /** The two tools never share an output directory, whatever the two files. */
  lemma {:induction false} OldNewDistinct(outputPath: Path, game: Game, file: string, file': string)
    ensures OldDirectory(outputPath, game, file) != NewDirectory(outputPath, game, file')
  {
    var o := OldDirectory(outputPath, game, file);
    var n := NewDirectory(outputPath, game, file');
    var x := RemoveBdt(file) + "Old";
    var y := RemoveBdt(file') + "New";
    assert o[|outputPath| + 1] == x && n[|outputPath| + 1] == y;
    assert x[|x| - 1] == 'd' && y[|y| - 1] == 'w';
  }

  /** Same output directory means same game and same stripped file name. */
  lemma {:induction false} OutputDirectoryInjective(outputPath: Path, g1: Game, f1: string, g2: Game, f2: string, suffix: string)
    requires OutputDirectory(outputPath, g1, f1, suffix) == OutputDirectory(outputPath, g2, f2, suffix)
    ensures g1 == g2 && RemoveBdt(f1) == RemoveBdt(f2)
  {
    var d := OutputDirectory(outputPath, g1, f1, suffix);
    var x := RemoveBdt(f1) + suffix;
    var y := RemoveBdt(f2) + suffix;
    assert d[|outputPath|] == GameName(g1) == GameName(g2);
    assert d[|outputPath| + 1] == x == y;
    assert RemoveBdt(f1) == x[..|x| - |suffix|] == y[..|y| - |suffix|] == RemoveBdt(f2);
  }

  /** `testCases.Where(t => t.game == game)` without the cases whose file is in `toSkip`. */
  function Selected(cases: seq<TestCase>, game: Game, toSkip: set<string>): (r: seq<TestCase>)
    ensures |r| <= |cases|
  {
    if cases == [] then []
    else
      var c := cases[|cases| - 1];
      Selected(cases[..|cases| - 1], game, toSkip) + if c.game == game && c.file !in toSkip then [c] else []
  }

  /** Selection keeps catalog order: selecting from a concatenation concatenates the selections. */
  lemma {:induction false} SelectedAppend(x: seq<TestCase>, y: seq<TestCase>, game: Game, toSkip: set<string>)
    ensures Selected(x + y, game, toSkip) == Selected(x, game, toSkip) + Selected(y, game, toSkip)
    decreases |y|
  {
    if y == [] {
      assert x + y == x;
    } else {
      assert (x + y)[..|x + y| - 1] == x + y[..|y| - 1];
      SelectedAppend(x, y[..|y| - 1], game, toSkip);
    }
  }

  /** A case runs exactly when it belongs to the game and its file is not skipped. */
  lemma {:induction false} SelectedMembers(cases: seq<TestCase>, game: Game, toSkip: set<string>)
    ensures forall c :: c in Selected(cases, game, toSkip) <==> c in cases && c.game == game && c.file !in toSkip
  {
    if cases != [] {
      var init := cases[..|cases| - 1];
      SelectedMembers(init, game, toSkip);
      assert cases == init + [cases[|cases| - 1]];
    }
  }

  /**
    The old and new output directories of every catalog case of `game` whose
    file is not skipped exist once the tools have run.
  */
  ghost predicate OutputsExist(catalog: seq<TestCase>, game: Game, toSkip: set<string>, outputPath: Path, outputs: Path -> Tree) {
    forall i :: 0 <= i < |catalog| && catalog[i].game == game && catalog[i].file !in toSkip ==>
      WellFormed(outputs(OldDirectory(outputPath, game, catalog[i].file))) && WellFormed(outputs(NewDirectory(outputPath, game, catalog[i].file)))
  }

  /** The old and new outputs of a case agree, so `RunTest` returns true for it. */
  ghost predicate Passes(c: TestCase, outputPath: Path, outputs: Path -> Tree) {
    Equivalent(outputs(OldDirectory(outputPath, c.game, c.file)), outputs(NewDirectory(outputPath, c.game, c.file)))
  }

  ghost function CountPassing(cases: seq<TestCase>, outputPath: Path, outputs: Path -> Tree): (r: nat)
    ensures r <= |cases|
  {
    if cases == [] then 0
    else CountPassing(cases[..|cases| - 1], outputPath, outputs) + if Passes(cases[|cases| - 1], outputPath, outputs) then 1 else 0
  }

  ghost function CountFailing(cases: seq<TestCase>, outputPath: Path, outputs: Path -> Tree): (r: nat)
    ensures r <= |cases|
  {
    if cases == [] then 0
    else CountFailing(cases[..|cases| - 1], outputPath, outputs) + if Passes(cases[|cases| - 1], outputPath, outputs) then 0 else 1
  }

  /** Every case that runs either passes or fails. */
  lemma {:induction false} PassingPlusFailing(cases: seq<TestCase>, outputPath: Path, outputs: Path -> Tree)
    ensures CountPassing(cases, outputPath, outputs) + CountFailing(cases, outputPath, outputs) == |cases|
  {
    if cases != [] {
      PassingPlusFailing(cases[..|cases| - 1], outputPath, outputs);
    }
  }

  /** No failures counted exactly when every case that ran passed. */
  lemma {:induction false} NoFailuresIffAllPass(cases: seq<TestCase>, outputPath: Path, outputs: Path -> Tree)
    ensures CountFailing(cases, outputPath, outputs) == 0 <==> forall i :: 0 <= i < |cases| ==> Passes(cases[i], outputPath, outputs)
  {
    if cases != [] {
      var init := cases[..|cases| - 1];
      NoFailuresIffAllPass(init, outputPath, outputs);
      assert forall i :: 0 <= i < |init| ==> init[i] == cases[i];
    }
  }

  /** One step of selecting over the catalog. */
  lemma {:induction false} SelectedStep(cases: seq<TestCase>, i: nat, game: Game, toSkip: set<string>)
    requires i < |cases|
    ensures Selected(cases[..i + 1], game, toSkip) ==
      Selected(cases[..i], game, toSkip) + if cases[i].game == game && cases[i].file !in toSkip then [cases[i]] else []
  {
    assert cases[..i + 1][..i] == cases[..i];
  }

  /** Counting over one more selected case. */
  lemma {:induction false} CountStep(cases: seq<TestCase>, c: TestCase, outputPath: Path, outputs: Path -> Tree)
    ensures CountPassing(cases + [c], outputPath, outputs) == CountPassing(cases, outputPath, outputs) + if Passes(c, outputPath, outputs) then 1 else 0
    ensures CountFailing(cases + [c], outputPath, outputs) == CountFailing(cases, outputPath, outputs) + if Passes(c, outputPath, outputs) then 0 else 1
  {
    assert (cases + [c])[..|cases|] == cases;
  }

  /**
    The call to `RunTest` for one case, on the case's old and new output
    directories: true exactly when the case passes.
  */
  method RunCase(test: TestCase, outputPath: Path, outputs: Path -> Tree) returns (success: bool)
    requires WellFormed(outputs(OldDirectory(outputPath, test.game, test.file)))
    requires WellFormed(outputs(NewDirectory(outputPath, test.game, test.file)))
    ensures success == Passes(test, outputPath, outputs)
  {
    var diffs;
    success, diffs := RunTest(outputs(OldDirectory(outputPath, test.game, test.file)), outputs(NewDirectory(outputPath, test.game, test.file)));
  }

  /**
    One pass of the loop of `RunTests` as written: a catalog case of the
    game whose file is not skipped is run, and the counter goes up when
    `RunTest` returns true.
  */
  method RunTestsNext(catalog: seq<TestCase>, i: nat, game: Game, toSkip: set<string>, outputPath: Path, outputs: Path -> Tree,
                    ran: seq<TestCase>, failed: int)
    returns (ran': seq<TestCase>, failed': int)
    requires i < |catalog|
    requires OutputsExist(catalog, game, toSkip, outputPath, outputs)
    requires ran == Selected(catalog[..i], game, toSkip)
    requires failed == CountPassing(ran, outputPath, outputs)
    ensures ran' == Selected(catalog[..i + 1], game, toSkip)
    ensures failed' == CountPassing(ran', outputPath, outputs)
  {
    var test := catalog[i];
    SelectedStep(catalog, i, game, toSkip);
    ran', failed' := ran, failed;
    if test.game == game && test.file !in toSkip {
      CountStep(ran, test, outputPath, outputs);
      var success := RunCase(test, outputPath, outputs);
      if success {
        failed' := failed + 1;
      }
      ran' := ran + [test];
    }
  }

  /**
    `RunTests` as written: an empty game path runs nothing and returns 0
    without looking at the output directories. Otherwise the selected cases
    run in catalog order, and the counter, which `Main` prints under "Tests
    failed", counts the passing cases. `outputs` gives the tree found in each
    output directory once the binder tools have run; `ran` lists the cases
    run.
  */
  method RunTests(catalog: seq<TestCase>, game: Game, gamePath: string, toSkip: set<string>, outputPath: Path, outputs: Path -> Tree)
    returns (failed: int, ran: seq<TestCase>)
    requires gamePath != "" ==> OutputsExist(catalog, game, toSkip, outputPath, outputs)
    ensures ran == if gamePath == "" then [] else Selected(catalog, game, toSkip)
    ensures failed == CountPassing(ran, outputPath, outputs)
  {
    ran := [];
    failed := 0;
    if gamePath == "" {
      return;
    }
    for i := 0 to |catalog|
      invariant ran == Selected(catalog[..i], game, toSkip)
      invariant failed == CountPassing(ran, outputPath, outputs)
    {
      ran, failed := RunTestsNext(catalog, i, game, toSkip, outputPath, outputs, ran, failed);
    }
    assert catalog[..|catalog|] == catalog;
  }

  /**
    One pass of the loop with the counter going up when `RunTest` returns
    false, as the counter's name and `Main` intend.
  */
  method RunTestsCountingFailuresNext(catalog: seq<TestCase>, i: nat, game: Game, toSkip: set<string>, outputPath: Path, outputs: Path -> Tree,
                    ran: seq<TestCase>, failed: int)
    returns (ran': seq<TestCase>, failed': int)
    requires i < |catalog|
    requires OutputsExist(catalog, game, toSkip, outputPath, outputs)
    requires ran == Selected(catalog[..i], game, toSkip)
    requires failed == CountFailing(ran, outputPath, outputs)
    ensures ran' == Selected(catalog[..i + 1], game, toSkip)
    ensures failed' == CountFailing(ran', outputPath, outputs)
  {
    var test := catalog[i];
    SelectedStep(catalog, i, game, toSkip);
    ran', failed' := ran, failed;
    if test.game == game && test.file !in toSkip {
      CountStep(ran, test, outputPath, outputs);
      var success := RunCase(test, outputPath, outputs);
      if !success {
        failed' := failed + 1;
      }
      ran' := ran + [test];
    }
  }

  /**
    `RunTests` with the corrected counter: the number of selected cases that
    failed.
  */
  method RunTestsCountingFailures(catalog: seq<TestCase>, game: Game, gamePath: string, toSkip: set<string>, outputPath: Path, outputs: Path -> Tree)
    returns (failed: int, ran: seq<TestCase>)
    requires gamePath != "" ==> OutputsExist(catalog, game, toSkip, outputPath, outputs)
    ensures ran == if gamePath == "" then [] else Selected(catalog, game, toSkip)
    ensures failed == CountFailing(ran, outputPath, outputs)
  {
    ran := [];
    failed := 0;
    if gamePath == "" {
      return;
    }
    for i := 0 to |catalog|
      invariant ran == Selected(catalog[..i], game, toSkip)
      invariant failed == CountFailing(ran, outputPath, outputs)
    {
      ran, failed := RunTestsCountingFailuresNext(catalog, i, game, toSkip, outputPath, outputs, ran, failed);
    }
    assert catalog[..|catalog|] == catalog;
  }

  /** The tree of an output directory with nothing in it. */
  const EmptyTree: Tree := map[[] := DirNode([])]

  /**
    The counter of `RunTests` as written on the first Dark Souls case, when
    both tools produce empty output: the one case passes, nothing fails, and
    the counter reported as failures is 1.
  */
  lemma {:induction false} CounterCountsPasses()
    ensures CountPassing(Selected([TestCases[0]], DarkSouls, {}), [], _ => EmptyTree) == 1
    ensures CountFailing(Selected([TestCases[0]], DarkSouls, {}), [], _ => EmptyTree) == 0
  {
    var t := TestCases[0];
    assert t == TestCase(DarkSouls, "dvdbnd0.bdt");
    var cases := Selected([t], DarkSouls, {});
    assert [t][..0] == [];
    assert Selected([], DarkSouls, {}) == [];
    assert cases == [t];
    assert Equivalent(EmptyTree, EmptyTree);
    assert Passes(TestCases[0], [], _ => EmptyTree);
    assert cases[..0] == [];
  }
}
