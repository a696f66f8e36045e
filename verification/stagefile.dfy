/** The signed stage file: a token file and a manifest, written one after the other, and a reader
    that repairs whatever does not verify.  Runs interleave any number of writers and readers step
    by step, with crashes, and with an outsider who can overwrite both files but cannot sign. */
module StageFiles {
  import opened Common
  import opened Text

  /** Hex strings: SHA-256 and HMAC values are distinct for distinct inputs. */
  datatype Hex = Sha256(text: string) | Hmac(text: string, key: string) | Other(raw: string)

  datatype Manifest = Manifest(tokenSha: Hex, sig: Hex, keyId: string)

  /** A manifest that is missing or not a JSON object is None. */
  datatype Files = Files(token: Option<string>, manifest: Option<Manifest>)

  /** `configured` says that a key variable is set; `keys` are the keys it yields. */
  datatype KeyConfig = KeyConfig(configured: bool, keys: map<string, string>, current: string)

  predicate ValidConfig(cfg: KeyConfig) {
    && (cfg.keys != map[] ==> cfg.configured && cfg.current in cfg.keys)
    && (forall id :: id in cfg.keys ==> cfg.keys[id] != "")
  }

  const STABLE: string := "stable"

  function Signed(cfg: KeyConfig, token: string): Manifest
    requires cfg.current in cfg.keys
  {
    Manifest(Sha256(token), Hmac(token, cfg.keys[cfg.current]), cfg.current)
  }

  predicate Verifies(cfg: KeyConfig, token: string, m: Manifest) {
    && m.tokenSha == Sha256(token)
    && m.keyId in cfg.keys
    && m.sig == Hmac(token, cfg.keys[m.keyId])
  }

  predicate Consistent(cfg: KeyConfig, f: Files, token: string) {
    && f.token.Some? && Strip(f.token.value) == token
    && f.manifest.Some? && Verifies(cfg, token, f.manifest.value)
  }

  function OrStable(token: string): string {
    if token == "" then STABLE else token
  }

  lemma {:induction false} WrittenIsConsistent(cfg: KeyConfig, stage: string)
    requires cfg.current in cfg.keys
    ensures Consistent(cfg, Files(Some(Strip(stage) + "\n"), Some(Signed(cfg, Strip(stage)))), Strip(stage))
  {
    StripIsTrimmed(stage);
    StripAfterNewline(Strip(stage));
  }

  // ----- one process alone

  datatype Failure = NoKey

  class StageFile {
    const cfg: KeyConfig
    var files: Files

    constructor (cfg: KeyConfig, files: Files)
      ensures this.cfg == cfg && this.files == files
    {
      this.cfg, this.files := cfg, files;
    }

    /** Without a usable key a write raises, but when a key variable is set and yields no key the
        token has been replaced by then. */
    method WriteStageAtomic(stage: string) returns (r: Result<string, Failure>)
      requires ValidConfig(cfg)
      modifies this
      ensures r.Ok? <==> cfg.keys != map[]
      ensures r.Ok? ==> r.value == stage
      ensures r.Ok? ==>
        var token := Strip(stage);
        files == Files(Some(token + "\n"), Some(Manifest(Sha256(token), Hmac(token, cfg.keys[cfg.current]), cfg.current)))
      ensures !cfg.configured ==> files == old(files)
      ensures cfg.configured && r.Err? ==> files == old(files).(token := Some(Strip(stage) + "\n"))
    {
      if !cfg.configured {
        return Err(NoKey);
      }
      var token := Strip(stage);
      files := files.(token := Some(token + "\n"));
      if cfg.keys == map[] {
        return Err(NoKey);
      }
      files := files.(manifest := Some(Signed(cfg, token)));
      return Ok(stage);
    }

    method GuardAndRepair() returns (r: Result<string, Failure>)
      requires ValidConfig(cfg)
      modifies this
      ensures r.Ok? <==> (cfg.configured ==> cfg.keys != map[])
      ensures r.Ok? ==> r.value == "stable"
      ensures r.Ok? && cfg.configured ==>
        files == Files(Some("stable\n"), Some(Manifest(Sha256("stable"), Hmac("stable", cfg.keys[cfg.current]), cfg.current)))
      ensures !cfg.configured ==> files == old(files)
      ensures r.Err? ==> files == old(files).(token := Some("stable\n"))
    {
      if !cfg.configured {
        return Ok(STABLE);
      }
      StableStripped();
      r := WriteStageAtomic(STABLE);
    }

    /** A pair whose manifest holds the token's digest and its signature under a configured key is
        returned untouched, an empty token as "stable"; anything else is replaced by "stable". */
    method ReadOrRepair() returns (r: Result<string, Failure>)
      requires ValidConfig(cfg)
      modifies this
      ensures r.Ok? <==> (cfg.configured ==> cfg.keys != map[])
      ensures !cfg.configured ==> r == Ok("stable") && files == old(files)
      ensures r.Err? ==> files == old(files).(token := Some("stable\n"))
      ensures cfg.keys != map[] ==>
        var f := old(files);
        var intact := f.token.Some? && f.manifest.Some?
          && f.manifest.value.tokenSha == Sha256(Strip(f.token.value))
          && f.manifest.value.keyId in cfg.keys
          && f.manifest.value.sig == Hmac(Strip(f.token.value), cfg.keys[f.manifest.value.keyId]);
        var repaired :=
          Files(Some("stable\n"), Some(Manifest(Sha256("stable"), Hmac("stable", cfg.keys[cfg.current]), cfg.current)));
        && r == Ok(if intact && Strip(f.token.value) != "" then Strip(f.token.value) else "stable")
        && files == if intact then f else repaired
    {
      StableStripped();
      if files.token.None? {
        if cfg.configured {
          var w := WriteStageAtomic(STABLE);
          if w.Err? {
            return w;
          }
        }
        return Ok(STABLE);
      }
      var token := Strip(files.token.value);
      var manifest := files.manifest;
      if !cfg.configured {
        return Ok(STABLE);
      }
      if manifest.None? || !Verifies(cfg, token, manifest.value) {
        r := GuardAndRepair();
        return;
      }
      return Ok(OrStable(token));
    }
  }

  lemma {:induction false} StableStripped()
    ensures Strip(STABLE) == STABLE && STABLE + "\n" == "stable\n"
  {
    StripAfterNewline(STABLE);
  }

  /** When nothing else runs, a completed write is read back, a second read sees the same, and
      reading changes nothing. */
  method WriteThenRead(f: StageFile, stage: string) returns (first: string, second: string, ghost written: Files)
    requires ValidConfig(f.cfg) && f.cfg.keys != map[]
    modifies f
    ensures first == second == if Strip(stage) == "" then "stable" else Strip(stage)
    ensures f.files == written && Consistent(f.cfg, written, Strip(stage))
  {
    var _ := f.WriteStageAtomic(stage);
    written := f.files;
    WrittenIsConsistent(f.cfg, stage);
    var a := f.ReadOrRepair();
    var b := f.ReadOrRepair();
    first, second := a.value, b.value;
  }

  /** A repair is a fixpoint: whatever the files held, the second read returns what the first did
      and changes nothing. */
  method ReadTwice(f: StageFile) returns (first: string, second: string, ghost between: Files)
    requires ValidConfig(f.cfg) && f.cfg.keys != map[]
    modifies f
    ensures second == first && f.files == between
  {
    StableStripped();
    StripAfterNewline(STABLE);
    assert "stable\n" == STABLE + "\n";
    var a := f.ReadOrRepair();
    between := f.files;
    var b := f.ReadOrRepair();
    first, second := a.value, b.value;
  }

  // ----- interleaved runs

  /** Where a process stands.  A writer, or a repairing reader, has replaced the token and owes the
      manifest; a reader has seen that the file exists, or holds the token it read. */
  datatype Proc =
    | Owes(token: string, reading: bool)
    | Repairing
    | Opened
    | Holds(token: string)

  /** `issued`: tokens some process has signed.  `passed`: stages callers passed, stripped.
      `returned`: what reads have returned, in order. */
  datatype System = System(files: Files, procs: map<nat, Proc>, issued: set<string>, passed: set<string>, returned: seq<string>)

  datatype Event =
    | BeginWrite(p: nat, stage: string)
    | BeginRead(p: nat)
    | Advance(p: nat)
    | Crash(p: nat)
    | Tamper(files: Files)

  function Drop(procs: map<nat, Proc>, p: nat): map<nat, Proc> {
    map q | q in procs && q != p :: procs[q]
  }

  /** An outsider's manifest bears no signature under a configured key that was not issued. */
  predicate Unforged(cfg: KeyConfig, f: Files, issued: set<string>) {
    f.manifest.Some? && f.manifest.value.sig.Hmac? && f.manifest.value.sig.key in cfg.keys.Values ==>
      f.manifest.value.sig.text in issued
  }

  /** One step; an event that is not possible changes nothing. */
  function Step(cfg: KeyConfig, s: System, e: Event): System
    requires ValidConfig(cfg)
  {
    match e
    case BeginWrite(p, stage) =>
      var s := s.(passed := s.passed + {Strip(stage)});
      if p in s.procs || !cfg.configured then s
      else s.(files := s.files.(token := Some(Strip(stage) + "\n")), procs := s.procs[p := Owes(Strip(stage), false)])
    case BeginRead(p) =>
      if p in s.procs then s
      else if s.files.token.Some? then s.(procs := s.procs[p := Opened])
      else if cfg.configured then s.(procs := s.procs[p := Repairing])
      else s.(returned := s.returned + [STABLE])
    case Advance(p) => if p in s.procs then Proceed(cfg, s, p, s.procs[p]) else s
    case Crash(p) => s.(procs := Drop(s.procs, p))
    case Tamper(files) => if Unforged(cfg, files, s.issued) then s.(files := files) else s
  }

  function Proceed(cfg: KeyConfig, s: System, p: nat, at: Proc): System
    requires ValidConfig(cfg)
  {
    match at
    case Opened =>
      if s.files.token.None? then s.(procs := Drop(s.procs, p))
      else s.(procs := s.procs[p := Holds(Strip(s.files.token.value))])
    case Holds(token) =>
      if !cfg.configured then s.(procs := Drop(s.procs, p), returned := s.returned + [STABLE])
      else if s.files.manifest.Some? && Verifies(cfg, token, s.files.manifest.value)
      then s.(procs := Drop(s.procs, p), returned := s.returned + [OrStable(token)])
      else s.(procs := s.procs[p := Repairing])
    case Repairing => s.(files := s.files.(token := Some(STABLE + "\n")), procs := s.procs[p := Owes(STABLE, true)])
    case Owes(token, reading) =>
      if cfg.keys == map[] then s.(procs := Drop(s.procs, p))
      else System(s.files.(manifest := Some(Signed(cfg, token))), Drop(s.procs, p), s.issued + {token}, s.passed,
                  if reading then s.returned + [STABLE] else s.returned)
  }

  function Run(cfg: KeyConfig, s: System, es: seq<Event>): System
    requires ValidConfig(cfg)
  {
    if es == [] then s else Step(cfg, Run(cfg, s, es[..|es| - 1]), es[|es| - 1])
  }

  /** Nothing running, nothing signed yet; the files hold anything but a signature. */
  predicate Initial(cfg: KeyConfig, s: System) {
    s.procs == map[] && s.issued == {} && s.passed == {} && s.returned == [] && Unforged(cfg, s.files, {})
  }

  predicate Sound(s: System, token: string) {
    token == STABLE || token in s.passed
  }

  ghost predicate Inv(cfg: KeyConfig, s: System) {
    && (forall t :: t in s.issued ==> Sound(s, t))
    && (forall p :: p in s.procs && s.procs[p].Owes? ==> Sound(s, s.procs[p].token))
    && (forall t :: t in s.returned ==> Sound(s, t))
    && Unforged(cfg, s.files, s.issued)
  }

  lemma {:induction false} StepKeepsInv(cfg: KeyConfig, s: System, e: Event)
    requires ValidConfig(cfg) && Inv(cfg, s)
    ensures Inv(cfg, Step(cfg, s, e))
  {
    match e
    case BeginWrite(p, stage) =>
    case BeginRead(p) =>
    case Advance(p) => if p in s.procs { ProceedKeepsInv(cfg, s, p); }
    case Crash(p) =>
    case Tamper(files) =>
  }

  lemma {:induction false} ProceedKeepsInv(cfg: KeyConfig, s: System, p: nat)
    requires ValidConfig(cfg) && Inv(cfg, s) && p in s.procs
    ensures Inv(cfg, Proceed(cfg, s, p, s.procs[p]))
  {
    match s.procs[p]
    case Opened =>
    case Holds(token) =>
      if s.files.manifest.Some? && Verifies(cfg, token, s.files.manifest.value) {
        assert cfg.keys[s.files.manifest.value.keyId] in cfg.keys.Values;
      }
    case Repairing =>
    case Owes(token, reading) =>
  }

  lemma {:induction false} RunKeepsInv(cfg: KeyConfig, s: System, es: seq<Event>)
    requires ValidConfig(cfg) && Inv(cfg, s)
    ensures Inv(cfg, Run(cfg, s, es))
  {
    if es != [] {
      RunKeepsInv(cfg, s, es[..|es| - 1]);
      StepKeepsInv(cfg, Run(cfg, s, es[..|es| - 1]), es[|es| - 1]);
    }
  }

  /** Under any schedule of writers, repairing readers, crashes and outside overwrites, every read
      returns "stable" or a stage some caller passed to a write. */
  lemma {:induction false} ReadsAreSound(cfg: KeyConfig, s: System, es: seq<Event>)
    requires ValidConfig(cfg) && Initial(cfg, s)
    ensures forall t :: t in Run(cfg, s, es).returned ==> t == "stable" || t in Run(cfg, s, es).passed
  {
    RunKeepsInv(cfg, s, es);
  }

  // ----- readers among themselves

  predicate ReadersOnly(es: seq<Event>) {
    forall e :: e in es ==> !e.BeginWrite? && !e.Tamper?
  }

  /** Only readers are about, and every token they hold is the consistent one. */
  ghost predicate Calm(cfg: KeyConfig, s: System, files: Files, token: string) {
    && s.files == files && Consistent(cfg, files, token)
    && forall p :: p in s.procs ==> s.procs[p] == Opened || s.procs[p] == Holds(token)
  }

  /** Once a write has completed, any number of interleaved and crashing readers leave the files
      alone and return what was written, until the next write. */
  lemma {:induction false} WriteIsReadBack(cfg: KeyConfig, s: System, es: seq<Event>, token: string)
    requires ValidConfig(cfg) && Calm(cfg, s, s.files, token) && ReadersOnly(es)
    ensures var r := Run(cfg, s, es);
      && Calm(cfg, r, s.files, token)
      && |r.returned| >= |s.returned| && r.returned[..|s.returned|] == s.returned
      && forall i :: |s.returned| <= i < |r.returned| ==> r.returned[i] == if token == "" then "stable" else token
  {
    if es != [] {
      WriteIsReadBack(cfg, s, es[..|es| - 1], token);
      CalmStep(cfg, Run(cfg, s, es[..|es| - 1]), es[|es| - 1], s.files, token);
    }
  }

  lemma {:induction false} CalmStep(cfg: KeyConfig, s: System, e: Event, files: Files, token: string)
    requires ValidConfig(cfg) && Calm(cfg, s, files, token) && !e.BeginWrite? && !e.Tamper?
    ensures Calm(cfg, Step(cfg, s, e), files, token)
    ensures var r := Step(cfg, s, e).returned; r == s.returned || r == s.returned + [OrStable(token)]
  {
    assert cfg.keys != map[];
    match e
    case BeginRead(p) =>
    case Advance(p) =>
    case Crash(p) =>
  }

  lemma {:induction false} RunExtend(cfg: KeyConfig, s: System, es: seq<Event>, e: Event)
    requires ValidConfig(cfg)
    ensures Run(cfg, s, es + [e]) == Step(cfg, Run(cfg, s, es), e)
  {
    assert (es + [e])[..|es|] == es;
  }

  /** A write that runs to its end in one go leaves the system calm. */
  lemma {:induction false} SoloWriteCalms(cfg: KeyConfig, s: System, p: nat, stage: string)
    requires ValidConfig(cfg) && cfg.keys != map[] && s.procs == map[]
    ensures var r := Run(cfg, s, [BeginWrite(p, stage), Advance(p)]); Calm(cfg, r, r.files, Strip(stage))
  {
    RunExtend(cfg, s, [], BeginWrite(p, stage));
    RunExtend(cfg, s, [BeginWrite(p, stage)], Advance(p));
    assert [BeginWrite(p, stage)] + [Advance(p)] == [BeginWrite(p, stage), Advance(p)];
    assert [] + [BeginWrite(p, stage)] == [BeginWrite(p, stage)];
    WrittenIsConsistent(cfg, stage);
  }

  // ----- one process alone, as a run

  lemma {:induction false} RunOfOne(cfg: KeyConfig, s: System, a: Event)
    requires ValidConfig(cfg)
    ensures Run(cfg, s, [a]) == Step(cfg, s, a)
  {
    assert [a][..0] == [];
  }

  lemma {:induction false} RunOfTwo(cfg: KeyConfig, s: System, a: Event, b: Event)
    requires ValidConfig(cfg)
    ensures Run(cfg, s, [a, b]) == Step(cfg, Step(cfg, s, a), b)
  {
    assert [a, b] == [a] + [b];
    RunOfOne(cfg, s, a);
    RunExtend(cfg, s, [a], b);
  }

  lemma {:induction false} RunOfFive(cfg: KeyConfig, s: System, a: Event, b: Event)
    requires ValidConfig(cfg)
    ensures Run(cfg, s, [a, b, b, b, b]) == Step(cfg, Step(cfg, Step(cfg, Step(cfg, Step(cfg, s, a), b), b), b), b)
  {
    assert [a, b, b, b, b] == [a, b, b, b] + [b] && [a, b, b, b] == [a, b, b] + [b] && [a, b, b] == [a, b] + [b];
    RunOfTwo(cfg, s, a, b);
    RunExtend(cfg, s, [a, b], b);
    RunExtend(cfg, s, [a, b, b], b);
    RunExtend(cfg, s, [a, b, b, b], b);
  }

  /** In a run, a write that nothing interrupts leaves the files as the write itself does. */
  method SoloWriteAgrees(f: StageFile, s: System, p: nat, stage: string) returns (r: Result<string, Failure>)
    requires ValidConfig(f.cfg) && s.procs == map[] && s.files == f.files
    modifies f
    ensures var after := Run(f.cfg, s, [BeginWrite(p, stage), Advance(p)]);
      && after.files == f.files && after.procs == map[] && after.returned == s.returned
      && after.passed == s.passed + {Strip(stage)} && after.issued == if r.Ok? then s.issued + {Strip(stage)} else s.issued
  {
    RunOfTwo(f.cfg, s, BeginWrite(p, stage), Advance(p));
    r := f.WriteStageAtomic(stage);
    assert Drop(map[p := Owes(Strip(stage), false)], p) == map[];
  }

  /** In a run, a read that nothing interrupts returns and leaves what the read itself does. */
  method SoloReadAgrees(f: StageFile, s: System, p: nat) returns (r: Result<string, Failure>)
    requires ValidConfig(f.cfg) && s.procs == map[] && s.files == f.files
    modifies f
    ensures var after := Run(f.cfg, s, [BeginRead(p), Advance(p), Advance(p), Advance(p), Advance(p)]);
      && after.files == f.files && after.procs == map[] && after.passed == s.passed
      && after.returned == s.returned + if r.Ok? then [r.value] else []
  {
    RunOfFive(f.cfg, s, BeginRead(p), Advance(p));
    assert forall at: Proc :: Drop(map[p := at], p) == map[];
    r := f.ReadOrRepair();
  }

  // ----- what the two-file protocol does not give

  /** A process that cannot spoil a consistent pair for `token` by going on. */
  predicate Harmless(at: Proc, token: string) {
    match at
    case Opened => true
    case Holds(t) => t == token || token == STABLE
    case Repairing => token == STABLE
    case Owes(t, _) => t == token
  }

  ghost predicate AllHarmless(s: System, token: string) {
    forall p :: p in s.procs ==> Harmless(s.procs[p], token)
  }

  lemma {:induction false} HarmlessStep(cfg: KeyConfig, s: System, e: Event, token: string)
    requires ValidConfig(cfg) && Consistent(cfg, s.files, token) && AllHarmless(s, token)
    requires !e.BeginWrite? && !e.Tamper?
    ensures Consistent(cfg, Step(cfg, s, e).files, token) && AllHarmless(Step(cfg, s, e), token)
  {
    StableStripped();
    StripAfterNewline(STABLE);
    match e
    case BeginRead(p) =>
    case Advance(p) =>
    case Crash(p) =>
  }

  lemma {:induction false} HarmlessRun(cfg: KeyConfig, s: System, es: seq<Event>, token: string)
    requires ValidConfig(cfg) && Consistent(cfg, s.files, token) && AllHarmless(s, token) && ReadersOnly(es)
    ensures Consistent(cfg, Run(cfg, s, es).files, token) && AllHarmless(Run(cfg, s, es), token)
  {
    if es != [] {
      HarmlessRun(cfg, s, es[..|es| - 1], token);
      HarmlessStep(cfg, Run(cfg, s, es[..|es| - 1]), es[|es| - 1], token);
    }
  }

  /** Letting a process that is not harmless go on spoils the pair. */
  lemma {:induction false} HarmfulSpoils(cfg: KeyConfig, s: System, token: string, p: nat) returns (es: seq<Event>)
    requires ValidConfig(cfg) && Consistent(cfg, s.files, token) && p in s.procs && !Harmless(s.procs[p], token)
    ensures ReadersOnly(es) && !Consistent(cfg, Run(cfg, s, es).files, token)
  {
    StripAfterNewline(STABLE);
    StableStripped();
    es := [Advance(p)];
    assert es[..0] == [];
    if s.procs[p].Holds? {
      RunExtend(cfg, s, es, Advance(p));
      es := es + [Advance(p)];
    }
  }

  /** Once a pair is consistent, no schedule of reads and of what is already under way can undo it,
      exactly when every process under way is harmless: no other writer owes its manifest, and no
      reader of another token is about to repair. */
  lemma {:induction false} WriteSurvivesExactly(cfg: KeyConfig, s: System, token: string)
    requires ValidConfig(cfg) && Consistent(cfg, s.files, token)
    ensures (forall es :: ReadersOnly(es) ==> Consistent(cfg, Run(cfg, s, es).files, token)) <==> AllHarmless(s, token)
  {
    if p :| p in s.procs && !Harmless(s.procs[p], token) {
      var es := HarmfulSpoils(cfg, s, token, p);
    } else {
      forall es | ReadersOnly(es) ensures Consistent(cfg, Run(cfg, s, es).files, token) {
        HarmlessRun(cfg, s, es, token);
      }
    }
  }

  /** A completed write can be lost, whatever stage is written and whatever was there before, unless
      the old manifest signs that very stage: a reader that saw the pair torn repairs it after the
      writer has finished, and the pair then says "stable". */
  lemma {:induction false} SlowReaderLosesWrite(cfg: KeyConfig, s: System, stage: string)
    returns (before: seq<Event>, after: seq<Event>)
    requires ValidConfig(cfg) && cfg.keys != map[] && s.procs == map[]
    requires s.files.manifest.None? || !Verifies(cfg, Strip(stage), s.files.manifest.value)
    ensures Consistent(cfg, Run(cfg, s, before).files, Strip(stage))
    ensures ReadersOnly(after) && Consistent(cfg, Run(cfg, s, before + after).files, STABLE)
  {
    before := TornRead(cfg, s, stage);
    after := [Advance(1), Advance(1)];
    StableStripped();
    StripAfterNewline(STABLE);
    RunExtend(cfg, s, before, Advance(1));
    RunExtend(cfg, s, before + [Advance(1)], Advance(1));
    assert before + after == before + [Advance(1)] + [Advance(1)];
  }

  /** The reader opens the file between the two writes, and decides to repair. */
  lemma {:induction false} TornRead(cfg: KeyConfig, s: System, stage: string) returns (es: seq<Event>)
    requires ValidConfig(cfg) && cfg.keys != map[] && s.procs == map[]
    requires s.files.manifest.None? || !Verifies(cfg, Strip(stage), s.files.manifest.value)
    ensures var r := Run(cfg, s, es); Consistent(cfg, r.files, Strip(stage)) && 1 in r.procs && r.procs[1] == Repairing
  {
    var t := Strip(stage);
    StripIsTrimmed(stage);
    StripAfterNewline(t);
    var b1 := [BeginWrite(0, stage)];
    var b2 := b1 + [BeginRead(1)];
    var b3 := b2 + [Advance(1)];
    var b4 := b3 + [Advance(1)];
    es := b4 + [Advance(0)];
    assert b1[..0] == [];
    RunExtend(cfg, s, b1, BeginRead(1));
    RunExtend(cfg, s, b2, Advance(1));
    RunExtend(cfg, s, b3, Advance(1));
    RunExtend(cfg, s, b4, Advance(0));
    WrittenIsConsistent(cfg, stage);
  }
}
