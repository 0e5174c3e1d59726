/** The baseline-profile part of the ART profile writer pass
    (opt/art-profile-writer/ArtProfileWriterPass.cpp): the flags a method
    gets from the interactions it is seen in, how flags are printed, and
    which lines the profile holds. */
module ArtProfileWriter {
  import opened Text

  // ----- Flags and their printed form -----

  /** `ArtProfileEntryFlags`; every flag starts out false. */
  datatype Flags = Flags(hot: bool, startup: bool, notStartup: bool)

  const NoFlags: Flags := Flags(false, false, false)

  /** `operator<<` on flags: `H`, `S` and `P` for the flags that are set,
      in that order. */
  function ShowFlags(f: Flags): (s: string)
    ensures |s| <= 3
    ensures 'H' in s <==> f.hot
    ensures 'S' in s <==> f.startup
    ensures 'P' in s <==> f.notStartup
    ensures s == "" <==> f == NoFlags
  {
    (if f.hot then "H" else "") + (if f.startup then "S" else "") + (if f.notStartup then "P" else "")
  }

  /** Reads one flag letter, if it is there, from the front of a line. */
  function TakeFlag(line: string, letter: char): (bool, string) {
    if |line| > 0 && line[0] == letter then (true, line[1..]) else (false, line)
  }

  /** Reads the flags back from the front of a profile line. */
  function ParseFlags(line: string): (Flags, string) {
    var (hot, r1) := TakeFlag(line, 'H');
    var (startup, r2) := TakeFlag(r1, 'S');
    var (notStartup, r3) := TakeFlag(r2, 'P');
    (Flags(hot, startup, notStartup), r3)
  }

  /** The letter is read back exactly when it was written. */
  lemma TakeFlagShown(present: bool, letter: char, rest: string)
    requires rest == "" || rest[0] != letter
    ensures TakeFlag((if present then [letter] else "") + rest, letter) == (present, rest)
  {
    if present {
      assert ([letter] + rest)[1..] == rest;
    } else {
      assert "" + rest == rest;
    }
  }

  /** The flags come back from a line whose text after them does not
      start with a flag letter. */
  lemma ShowFlagsRoundTrip(f: Flags, d: string)
    requires d == "" || d[0] !in "HSP"
    ensures ParseFlags(ShowFlags(f) + d) == (f, d)
  {
    var h := if f.hot then "H" else "";
    var st := if f.startup then "S" else "";
    var p := if f.notStartup then "P" else "";
    assert ShowFlags(f) + d == h + (st + (p + d));
    TakeFlagShown(f.notStartup, 'P', d);
    TakeFlagShown(f.startup, 'S', p + d);
    TakeFlagShown(f.hot, 'H', st + (p + d));
  }

  // ----- Method descriptors -----

  /** The reformatting of a deobfuscated method descriptor into the
      manual profile pattern: `.` becomes `->`, then `:(` becomes `(`. */
  function RewriteDescriptor(d: string): string {
    ReplaceAll(ReplaceAll(d, ".", "->"), ":(", "(")
  }

  /** No `.` is left in a rewritten descriptor. */
  lemma RewriteRemovesDots(d: string)
    ensures '.' !in RewriteDescriptor(d)
  {
    ReplaceAllRemovesChar(d, '.', "->");
    ReplaceAllKeepsAbsent(ReplaceAll(d, ".", "->"), ":(", "(", '.');
  }

  /** A descriptor starting with a class descriptor's `L` still does after
      the rewrite. */
  lemma RewriteKeepsHead(d: string)
    requires |d| > 0 && d[0] == 'L'
    ensures |RewriteDescriptor(d)| > 0 && RewriteDescriptor(d)[0] == 'L'
  {
    ReplaceAllKeepsHead(d, ".", "->");
    ReplaceAllKeepsHead(ReplaceAll(d, ".", "->"), ":(", "(");
  }

  /** A deobfuscated descriptor `Lcls;.name:(args)ret` becomes
      `Lcls;->name(args)ret`. */
  lemma RewriteMethodDescriptor(cls: string, name: string, rest: string)
    requires '.' !in cls && '.' !in name && '.' !in rest
    requires ':' !in cls && ':' !in name && ':' !in rest
    ensures RewriteDescriptor(cls + "." + name + ":(" + rest) == cls + "->" + name + "(" + rest
  {
    var x := name + ":(" + rest;
    assert '.' !in x;
    assert cls + "." + name + ":(" + rest == cls + "." + x;
    ReplaceAllOnce(cls, x, ".", "->");
    var y := cls + "->" + name;
    assert ':' !in y;
    assert cls + "->" + x == y + ":(" + rest;
    ReplaceAllOnce(y, rest, ":(", "(");
  }

  /** One method line of the profile. */
  function ProfileLine(f: Flags, descriptor: string): string {
    ShowFlags(f) + RewriteDescriptor(descriptor)
  }

  /** A method line gives back its flags and its rewritten descriptor. */
  lemma ProfileLineRoundTrip(f: Flags, descriptor: string)
    requires |descriptor| > 0 && descriptor[0] == 'L'
    ensures ParseFlags(ProfileLine(f, descriptor)) == (f, RewriteDescriptor(descriptor))
  {
    RewriteKeepsHead(descriptor);
    ShowFlagsRoundTrip(f, RewriteDescriptor(descriptor));
  }

  // ----- Flags from the interactions -----

  const ColdStart: string := "ColdStart"

  /** The profile statistics of a method in one interaction. */
  datatype MethodStat = MethodStat(appearPercent: real, callCount: real)

  /** The thresholds and the interactions the pass is configured with. */
  datatype PerfConfig = PerfConfig(
    appear100Threshold: real, callCountThreshold: real,
    coldstartAppear100Threshold: real, coldstartAppear100NonhotThreshold: real,
    interactions: seq<string>)

  /** Whether a method's statistics put it into the profile; the start-up
      interaction uses the lower non-hot threshold. */
  predicate Qualifies(cfg: PerfConfig, startup: bool, st: MethodStat) {
    st.appearPercent >= (if startup then cfg.coldstartAppear100NonhotThreshold else cfg.appear100Threshold) &&
    st.callCount >= cfg.callCountThreshold
  }

  /** Whether the method is hot according to a qualifying interaction. */
  predicate HotIn(cfg: PerfConfig, startup: bool, st: MethodStat) {
    !startup || st.appearPercent > cfg.coldstartAppear100Threshold
  }

  /** The flags of a method after a qualifying interaction. */
  function Update(mf: Flags, cfg: PerfConfig, startup: bool, st: MethodStat): (r: Flags)
    ensures r.hot == HotIn(cfg, startup, st)
    ensures r.startup == (mf.startup || startup)
    ensures r.notStartup == (!startup || r.hot)
  {
    var hot := if startup then st.appearPercent > cfg.coldstartAppear100Threshold else true;
    if startup then Flags(hot, true, hot) else mf.(hot := hot, notStartup := true)
  }

  /** `method_flags[m]`, which starts with no flags when absent. */
  function Entry<M>(flags: map<M, Flags>, m: M): Flags {
    if m in flags then flags[m] else NoFlags
  }

  /** The methods of `done` whose statistics qualify. */
  function QualifyingIn<M>(cfg: PerfConfig, startup: bool, stats: map<M, MethodStat>, done: set<M>): set<M> {
    set m | m in done && m in stats && Qualifies(cfg, startup, stats[m])
  }

  /** The flags once the methods of `done` are processed for one
      interaction. */
  function ApplyStats<M>(flags: map<M, Flags>, cfg: PerfConfig, startup: bool,
                         stats: map<M, MethodStat>, done: set<M>): map<M, Flags> {
    map m | m in flags.Keys + QualifyingIn(cfg, startup, stats, done) ::
      if m in QualifyingIn(cfg, startup, stats, done) then Update(Entry(flags, m), cfg, startup, stats[m])
      else flags[m]
  }

  /** `method_stats(id)`: no statistics for an unknown interaction. */
  function StatsOf<M>(profiles: map<string, map<M, MethodStat>>, id: string): map<M, MethodStat> {
    if id in profiles then profiles[id] else map[]
  }

  /** The flags after the interactions `ids`, one after the other. */
  function FlagsAfter<M>(cfg: PerfConfig, profiles: map<string, map<M, MethodStat>>, ids: seq<string>): map<M, Flags>
    decreases |ids|
  {
    if |ids| == 0 then map[]
    else
      var id := ids[|ids| - 1];
      var stats := StatsOf(profiles, id);
      ApplyStats(FlagsAfter(cfg, profiles, ids[..|ids| - 1]), cfg, id == ColdStart, stats, stats.Keys)
  }

  /** The flag loop of `run_pass`: `method_flags` for the configured
      interactions, in their order, and each interaction's methods in any
      order. */
  method ComputeMethodFlags<M(==)>(cfg: PerfConfig, profiles: map<string, map<M, MethodStat>>)
    returns (flags: map<M, Flags>)
    ensures flags == FlagsAfter(cfg, profiles, cfg.interactions)
  {
    var ids := cfg.interactions;
    flags := map[];
    for i := 0 to |ids|
      invariant flags == FlagsAfter(cfg, profiles, ids[..i])
    {
      assert ids[..i + 1][..i] == ids[..i];
      flags := ApplyInteraction(flags, cfg, ids[i] == ColdStart, StatsOf(profiles, ids[i]));
    }
    assert ids[..|ids|] == ids;
  }

  /** The inner loop: one interaction's statistics, method by method. */
  method ApplyInteraction<M(==)>(flags0: map<M, Flags>, cfg: PerfConfig, startup: bool, stats: map<M, MethodStat>)
    returns (flags: map<M, Flags>)
    ensures flags == ApplyStats(flags0, cfg, startup, stats, stats.Keys)
  {
    flags := flags0;
    var done: set<M> := {};
    ApplyStatsNone(flags0, cfg, startup, stats);
    while done != stats.Keys
      invariant done <= stats.Keys
      invariant flags == ApplyStats(flags0, cfg, startup, stats, done)
      decreases |stats.Keys - done|
    {
      var m :| m in stats.Keys - done;
      ApplyStatsStep(flags0, cfg, startup, stats, done, m);
      if Qualifies(cfg, startup, stats[m]) {
        flags := flags[m := Update(Entry(flags, m), cfg, startup, stats[m])];
      }
      done := done + {m};
      assert flags == ApplyStats(flags0, cfg, startup, stats, done);
    }
  }

  /** Before any method is processed nothing changes. */
  lemma ApplyStatsNone<M>(flags: map<M, Flags>, cfg: PerfConfig, startup: bool, stats: map<M, MethodStat>)
    ensures ApplyStats(flags, cfg, startup, stats, {}) == flags
  {
    assert QualifyingIn(cfg, startup, stats, {}) == {};
  }

  /** Processing one more method of an interaction. */
  lemma ApplyStatsStep<M>(flags: map<M, Flags>, cfg: PerfConfig, startup: bool,
                          stats: map<M, MethodStat>, done: set<M>, m: M)
    requires m in stats && m !in done
    ensures var before := ApplyStats(flags, cfg, startup, stats, done);
            ApplyStats(flags, cfg, startup, stats, done + {m})
            == if Qualifies(cfg, startup, stats[m]) then before[m := Update(Entry(before, m), cfg, startup, stats[m])]
               else before
  {
    var before := ApplyStats(flags, cfg, startup, stats, done);
    assert Entry(before, m) == Entry(flags, m);
    if !Qualifies(cfg, startup, stats[m]) {
      assert QualifyingIn(cfg, startup, stats, done + {m}) == QualifyingIn(cfg, startup, stats, done);
    } else {
      assert QualifyingIn(cfg, startup, stats, done + {m}) == QualifyingIn(cfg, startup, stats, done) + {m};
    }
  }

  /** The method qualifies in interaction `id`. */
  predicate QualifiesIn<M>(cfg: PerfConfig, profiles: map<string, map<M, MethodStat>>, id: string, m: M) {
    m in StatsOf(profiles, id) && Qualifies(cfg, id == ColdStart, StatsOf(profiles, id)[m])
  }

  /** A method has flags exactly when it qualifies in some interaction. */
  lemma {:induction false} FlagsAfterKeys<M>(cfg: PerfConfig, profiles: map<string, map<M, MethodStat>>,
                                             ids: seq<string>, m: M)
    ensures m in FlagsAfter(cfg, profiles, ids) <==>
            exists i :: 0 <= i < |ids| && QualifiesIn(cfg, profiles, ids[i], m)
    decreases |ids|
  {
    if |ids| > 0 {
      var init := ids[..|ids| - 1];
      FlagsAfterKeys(cfg, profiles, init, m);
      if exists i :: 0 <= i < |init| && QualifiesIn(cfg, profiles, init[i], m) {
        var i :| 0 <= i < |init| && QualifiesIn(cfg, profiles, init[i], m);
        assert ids[i] == init[i];
      }
      if exists i :: 0 <= i < |ids| && QualifiesIn(cfg, profiles, ids[i], m) {
        var i :| 0 <= i < |ids| && QualifiesIn(cfg, profiles, ids[i], m);
        if i < |init| {
          assert init[i] == ids[i];
        }
      }
    }
  }

  /** Every method with flags has `hot` and `not_startup` equal, whatever
      the thresholds. */
  lemma {:induction false} HotIsNotStartup<M>(cfg: PerfConfig, profiles: map<string, map<M, MethodStat>>,
                                              ids: seq<string>, m: M)
    requires m in FlagsAfter(cfg, profiles, ids)
    ensures FlagsAfter(cfg, profiles, ids)[m].hot == FlagsAfter(cfg, profiles, ids)[m].notStartup
    decreases |ids|
  {
    var init := ids[..|ids| - 1];
    if m in FlagsAfter(cfg, profiles, init) {
      HotIsNotStartup(cfg, profiles, init, m);
    }
  }

  /** A method is flagged start-up exactly when it qualifies in some
      `ColdStart` interaction. */
  lemma {:induction false} StartupIffColdStart<M>(cfg: PerfConfig, profiles: map<string, map<M, MethodStat>>,
                                                  ids: seq<string>, m: M)
    ensures Entry(FlagsAfter(cfg, profiles, ids), m).startup <==>
            exists i :: 0 <= i < |ids| && ids[i] == ColdStart && QualifiesIn(cfg, profiles, ids[i], m)
    decreases |ids|
  {
    if |ids| > 0 {
      var init := ids[..|ids| - 1];
      StartupIffColdStart(cfg, profiles, init, m);
      if exists i :: 0 <= i < |init| && init[i] == ColdStart && QualifiesIn(cfg, profiles, init[i], m) {
        var i :| 0 <= i < |init| && init[i] == ColdStart && QualifiesIn(cfg, profiles, init[i], m);
        assert ids[i] == init[i];
      }
      if exists i :: 0 <= i < |ids| && ids[i] == ColdStart && QualifiesIn(cfg, profiles, ids[i], m) {
        var i :| 0 <= i < |ids| && ids[i] == ColdStart && QualifiesIn(cfg, profiles, ids[i], m);
        if i < |init| {
          assert init[i] == ids[i];
        }
      }
    }
  }

  /** The last interaction a method qualifies in decides whether it is hot:
      a later `ColdStart` below the hot threshold clears what an earlier
      interaction set. */
  lemma {:induction false} LastQualifyingDecidesHot<M>(cfg: PerfConfig, profiles: map<string, map<M, MethodStat>>,
                                                       ids: seq<string>, m: M, i: nat)
    requires i < |ids| && QualifiesIn(cfg, profiles, ids[i], m)
    requires forall j :: i < j < |ids| ==> !QualifiesIn(cfg, profiles, ids[j], m)
    ensures m in FlagsAfter(cfg, profiles, ids)
    ensures FlagsAfter(cfg, profiles, ids)[m].hot == HotIn(cfg, ids[i] == ColdStart, StatsOf(profiles, ids[i])[m])
    decreases |ids|
  {
    var init := ids[..|ids| - 1];
    if i < |ids| - 1 {
      assert !QualifiesIn(cfg, profiles, ids[|ids| - 1], m);
      LastQualifyingDecidesHot(cfg, profiles, init, m, i);
    }
  }

  /** The order of the interactions matters: with the same statistics, a
      method hot in a later interaction is printed `HSP`, one hot in an
      earlier one only `S`. */
  lemma InteractionOrderMatters()
    ensures var stats := map[0 := MethodStat(90.0, 10.0)];
            var profiles: map<string, map<nat, MethodStat>> := map["ColdStart" := stats, "Scroll" := stats];
            var cfg := PerfConfig(80.0, 1.0, 95.0, 50.0, []);
            ShowFlags(FlagsAfter(cfg.(interactions := ["ColdStart", "Scroll"]), profiles, ["ColdStart", "Scroll"])[0]) == "HSP" &&
            ShowFlags(FlagsAfter(cfg.(interactions := ["Scroll", "ColdStart"]), profiles, ["Scroll", "ColdStart"])[0]) == "S"
  {
    var stats := map[0 := MethodStat(90.0, 10.0)];
    var profiles: map<string, map<nat, MethodStat>> := map["ColdStart" := stats, "Scroll" := stats];
    var cfg := PerfConfig(80.0, 1.0, 95.0, 50.0, []);
    var a := ["ColdStart", "Scroll"];
    var b := ["Scroll", "ColdStart"];
    assert a[..1] == ["ColdStart"] && a[..1][..0] == [];
    assert b[..1] == ["Scroll"] && b[..1][..0] == [];
    assert "Scroll" != ColdStart;
    assert QualifyingIn(cfg, true, stats, stats.Keys) == {0};
    assert QualifyingIn(cfg, false, stats, stats.Keys) == {0};
  }

  // ----- The profile lines -----

  /** A class of a dex: its deobfuscated name and all its methods. */
  datatype ClassEntry<M> = ClassEntry(descriptor: string, methods: seq<M>)

  /** A method whose flags make its class part of the profile: a hot
      method, or a start-up method that is not also `not_startup`. */
  predicate WantsClass(f: Flags) {
    f.hot || (f.startup && !f.notStartup)
  }

  /** `should_include_class`. */
  predicate IncludeClass<M>(flags: map<M, Flags>, methods: seq<M>) {
    exists k :: 0 <= k < |methods| && methods[k] in flags && WantsClass(flags[methods[k]])
  }

  /** With `hot` equal to `not_startup`, a class is included exactly when
      one of its methods is hot or start-up. */
  lemma IncludeClassHotOrStartup<M>(flags: map<M, Flags>, methods: seq<M>)
    requires forall m :: m in flags ==> flags[m].hot == flags[m].notStartup
    ensures IncludeClass(flags, methods) <==>
            exists k :: 0 <= k < |methods| && methods[k] in flags &&
                        (flags[methods[k]].hot || flags[methods[k]].startup)
  {
  }

  /** The lines of the methods with flags, in order. */
  function MethodLines<M>(flags: map<M, Flags>, methods: seq<M>, show: M -> string): seq<string>
    decreases |methods|
  {
    if |methods| == 0 then []
    else
      var m := methods[|methods| - 1];
      MethodLines(flags, methods[..|methods| - 1], show) + (if m in flags then [ProfileLine(flags[m], show(m))] else [])
  }

  /** Every flagged method has at least one flag set. */
  lemma {:induction false} EntriesHaveFlags<M>(cfg: PerfConfig, profiles: map<string, map<M, MethodStat>>,
                                               ids: seq<string>, m: M)
    requires m in FlagsAfter(cfg, profiles, ids)
    ensures FlagsAfter(cfg, profiles, ids)[m] != NoFlags
    decreases |ids|
  {
    var init := ids[..|ids| - 1];
    if m in FlagsAfter(cfg, profiles, init) {
      EntriesHaveFlags(cfg, profiles, init, m);
    }
  }

  /** With no entry lacking flags, every method line starts with a flag
      letter. */
  lemma {:induction false} MethodLinesStartWithFlag<M>(flags: map<M, Flags>, methods: seq<M>, show: M -> string)
    requires forall m :: m in flags ==> flags[m] != NoFlags
    ensures forall i :: 0 <= i < |MethodLines(flags, methods, show)| ==>
              |MethodLines(flags, methods, show)[i]| > 0 && MethodLines(flags, methods, show)[i][0] in "HSP"
    decreases |methods|
  {
    if |methods| > 0 {
      MethodLinesStartWithFlag(flags, methods[..|methods| - 1], show);
      var m := methods[|methods| - 1];
      if m in flags {
        var f := ShowFlags(flags[m]);
        assert f[0] in "HSP";
        assert ProfileLine(flags[m], show(m))[0] == f[0];
      }
    }
  }

  /** The lines of one class: its method lines, then the class itself
      when it is included. */
  function ClassLines<M>(flags: map<M, Flags>, c: ClassEntry<M>, show: M -> string): seq<string> {
    MethodLines(flags, c.methods, show) + (if IncludeClass(flags, c.methods) then [c.descriptor] else [])
  }

  function DexLines<M>(flags: map<M, Flags>, classes: seq<ClassEntry<M>>, show: M -> string): seq<string>
    decreases |classes|
  {
    if |classes| == 0 then []
    else DexLines(flags, classes[..|classes| - 1], show) + ClassLines(flags, classes[|classes| - 1], show)
  }

  function DexenLines<M>(flags: map<M, Flags>, dexen: seq<seq<ClassEntry<M>>>, show: M -> string): seq<string>
    decreases |dexen|
  {
    if |dexen| == 0 then []
    else DexenLines(flags, dexen[..|dexen| - 1], show) + DexLines(flags, dexen[|dexen| - 1], show)
  }

  /** How many dexes the profile covers: all of them from API level 21,
      only the primary one before. */
  function EmittedDexCount(minSdk: int, dexCount: nat): nat {
    if minSdk >= 21 then dexCount else 1
  }

  /** The baseline profile, line by line. */
  function ProfileLines<M>(flags: map<M, Flags>, dexen: seq<seq<ClassEntry<M>>>, minSdk: int,
                           show: M -> string): seq<string>
    requires minSdk >= 21 || |dexen| >= 1
  {
    DexenLines(flags, dexen[..EmittedDexCount(minSdk, |dexen|)], show)
  }

  /** Below API level 21 only the primary dex is written. */
  lemma PrimaryDexOnly<M>(flags: map<M, Flags>, dexen: seq<seq<ClassEntry<M>>>, minSdk: int, show: M -> string)
    requires minSdk < 21 && |dexen| >= 1
    ensures ProfileLines(flags, dexen, minSdk, show) == DexLines(flags, dexen[0], show)
  {
    var first := dexen[..1];
    assert first[..0] == [] && first[0] == dexen[0];
    assert DexenLines(flags, first, show) == DexenLines(flags, first[..0], show) + DexLines(flags, first[0], show);
  }

  /** The class's own line, which starts with `L`, is among its lines
      exactly when `should_include_class` holds. */
  lemma ClassLineIffIncluded<M>(flags: map<M, Flags>, c: ClassEntry<M>, show: M -> string)
    requires forall m :: m in flags ==> flags[m] != NoFlags
    requires |c.descriptor| > 0 && c.descriptor[0] == 'L'
    ensures c.descriptor in ClassLines(flags, c, show) <==> IncludeClass(flags, c.methods)
  {
    MethodLinesStartWithFlag(flags, c.methods, show);
    if !IncludeClass(flags, c.methods) {
      assert ClassLines(flags, c, show) == MethodLines(flags, c.methods, show);
    }
  }

  /** A class none of whose methods has flags adds no line. */
  lemma {:induction false} UnprofiledClassIsSilent<M>(flags: map<M, Flags>, c: ClassEntry<M>, show: M -> string)
    requires forall k :: 0 <= k < |c.methods| ==> c.methods[k] !in flags
    ensures ClassLines(flags, c, show) == []
  {
    NoMethodLines(flags, c.methods, show);
  }

  lemma {:induction false} NoMethodLines<M>(flags: map<M, Flags>, methods: seq<M>, show: M -> string)
    requires forall k :: 0 <= k < |methods| ==> methods[k] !in flags
    ensures MethodLines(flags, methods, show) == []
    decreases |methods|
  {
    if |methods| > 0 {
      NoMethodLines(flags, methods[..|methods| - 1], show);
    }
  }

  /** The writing loop of `run_pass`: the profile's lines in order. */
  method WriteProfile<M>(flags: map<M, Flags>, dexen: seq<seq<ClassEntry<M>>>, minSdk: int,
                         show: M -> string) returns (lines: seq<string>)
    requires minSdk >= 21 || |dexen| >= 1
    ensures lines == ProfileLines(flags, dexen, minSdk, show)
  {
    var end := if minSdk >= 21 then |dexen| else 1;
    lines := [];
    for i := 0 to end
      invariant lines == DexenLines(flags, dexen[..i], show)
    {
      assert dexen[..i + 1][..i] == dexen[..i];
      var dexLines := WriteDex(flags, dexen[i], show);
      lines := lines + dexLines;
    }
  }

  /** The lines of the classes of one dex. */
  method WriteDex<M>(flags: map<M, Flags>, dex: seq<ClassEntry<M>>, show: M -> string)
    returns (lines: seq<string>)
    ensures lines == DexLines(flags, dex, show)
  {
    lines := [];
    for j := 0 to |dex|
      invariant lines == DexLines(flags, dex[..j], show)
    {
      assert dex[..j + 1][..j] == dex[..j];
      var classLines := WriteClass(flags, dex[j], show);
      lines := lines + classLines;
    }
    assert dex[..|dex|] == dex;
  }

  /** The lines of one class: a line per method with flags, then the
      class when some method wants it. */
  method WriteClass<M>(flags: map<M, Flags>, c: ClassEntry<M>, show: M -> string)
    returns (lines: seq<string>)
    ensures lines == ClassLines(flags, c, show)
  {
    lines := [];
    var shouldInclude := false;
    for k := 0 to |c.methods|
      invariant lines == MethodLines(flags, c.methods[..k], show)
      invariant shouldInclude <==> IncludeClass(flags, c.methods[..k])
    {
      assert c.methods[..k + 1][..k] == c.methods[..k];
      var m := c.methods[k];
      if m in flags {
        if WantsClass(flags[m]) {
          shouldInclude := true;
        }
        lines := lines + [ProfileLine(flags[m], show(m))];
      }
      IncludeClassStep(flags, c.methods, k);
    }
    assert c.methods[..|c.methods|] == c.methods;
    if shouldInclude {
      lines := lines + [c.descriptor];
    }
  }

  lemma IncludeClassStep<M>(flags: map<M, Flags>, methods: seq<M>, k: nat)
    requires k < |methods|
    ensures IncludeClass(flags, methods[..k + 1]) <==>
            IncludeClass(flags, methods[..k]) || (methods[k] in flags && WantsClass(flags[methods[k]]))
  {
    assert forall q :: 0 <= q < k ==> methods[..k + 1][q] == methods[..k][q];
    if IncludeClass(flags, methods[..k + 1]) {
      var q :| 0 <= q < k + 1 && methods[..k + 1][q] in flags && WantsClass(flags[methods[..k + 1][q]]);
      if q < k {
        assert methods[..k][q] == methods[q];
      }
    }
  }
}
