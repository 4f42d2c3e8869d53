/**
 * The first half of `ensure_icons`: which icons the launcher must have in its cache
 * directory, and from which source each one is made.
 */
module IconPolicy {
  import opened Wrappers
  import opened Text
  import opened Paths
  import opened Config

  /** The launcher's own directory (`BASE`) and its executable's stem (`SELF_NAME`). */
  datatype Layout = Layout(base: string, selfName: string)

  /** `BASE` is the resolved directory of the launcher, hence absolute. */
  predicate ValidLayout(l: Layout) {
    IsAbsolute(l.base)
  }

  /** `CACHE_DIR`: the directory `.<SELF_NAME>` next to the launcher. */
  function CacheDir(l: Layout): string {
    Join(l.base, "." + l.selfName)
  }

  /** The cached button image for a source with the given stem. */
  function ButtonPath(l: Layout, stem: string): string {
    Join(CacheDir(l), "btn_" + stem + ".png")
  }

  /** The cached window icon. */
  function WindowIconPath(l: Layout): string {
    Join(CacheDir(l), "window_icon.ico")
  }

  /** What a path's suffix, compared without regard to case, says it is. */
  datatype IconClass = PngImage | IcoImage | ExeFile | OtherFile

  function Classify(p: string): IconClass {
    var s := Lower(Suffix(p));
    if s == ".png" then PngImage
    else if s == ".ico" then IcoImage
    else if s == ".exe" then ExeFile
    else OtherFile
  }

  /** The `"exe"` and `"ico"` modes of a button target. */
  datatype Kind = FromExe | FromIco

  /** A button image to produce: `(kind, source, output)`. */
  datatype Target = Target(kind: Kind, source: string, output: string)

  /** The window icon to extract: `(source exe, output ico)`. */
  datatype WindowTarget = WindowTarget(source: string, output: string)

  /** The window target: only an `.exe` spec needs one; an `.ico` is used as it is. */
  function WindowTargetOf(l: Layout, spec: string): Option<WindowTarget> {
    if spec == [] then None
    else
      var p := Resolve(l.base, spec);
      if Classify(p) == ExeFile then Some(WindowTarget(p, WindowIconPath(l))) else None
  }

  /**
   * The button target of one application: from its icon spec when it names an `.ico` or an
   * `.exe`, none when it names a `.png` or anything else, and from the application's own
   * executable when there is no icon spec.
   */
  function AppTargetOf(l: Layout, app: AppRecord): (r: Option<Target>)
    ensures r.Some? ==> r.value.output == ButtonPath(l, Stem(r.value.source))
  {
    var spec := Strip(app.icon);
    if spec != [] then
      var ip := Resolve(l.base, spec);
      match Classify(ip)
      case IcoImage => Some(Target(FromIco, ip, ButtonPath(l, Stem(ip))))
      case ExeFile => Some(Target(FromExe, ip, ButtonPath(l, Stem(ip))))
      case _ => None
    else
      var exe := Resolve(l.base, app.exe);
      Some(Target(FromExe, exe, ButtonPath(l, Stem(exe))))
  }

  /** The worklist of button targets: each application's target, in application order. */
  function AppTargets(l: Layout, apps: seq<AppRecord>): (r: seq<Target>)
    ensures |r| <= |apps|
    ensures forall k :: 0 <= k < |r| ==> r[k].output == ButtonPath(l, Stem(r[k].source))
  {
    var f := (app: AppRecord) => AppTargetOf(l, app);
    var r := FilterMap(f, apps);
    forall k | 0 <= k < |r| ensures r[k].output == ButtonPath(l, Stem(r[k].source)) {
      FilterMapFrom(f, apps, k);
    }
    r
  }

  /**
   * The target derivation of `ensure_icons`: the window target, then one pass over the
   * applications appending each one's target.
   */
  method DeriveTargets(l: Layout, windowIcon: string, apps: seq<AppRecord>)
    returns (win: Option<WindowTarget>, targets: seq<Target>)
    ensures win == WindowTargetOf(l, windowIcon)
    ensures targets == AppTargets(l, apps)
  {
    win := WindowTargetOf(l, windowIcon);
    targets := [];
    for i := 0 to |apps|
      invariant targets == AppTargets(l, apps[..i])
    {
      assert apps[..i + 1] == apps[..i] + [apps[i]];
      AppTargetsAppend(l, apps[..i], [apps[i]]);
      AppTargetsOne(l, apps[i]);
      var t := AppTargetOf(l, apps[i]);
      if t.Some? {
        targets := targets + [t.value];
      }
    }
    assert apps[..|apps|] == apps;
  }

  /**
   * One application's target in terms of what was configured: the class and the stem of an
   * icon spec are read off the spec as written, before it is resolved. An empty `exe` is the
   * path `.`, which resolves to `BASE` itself.
   */
  lemma AppTargetCases(l: Layout, app: AppRecord)
    ensures var spec := Strip(app.icon); var t := AppTargetOf(l, app);
      (spec == [] && app.exe != [] ==>
        t == Some(Target(FromExe, Resolve(l.base, app.exe), ButtonPath(l, Stem(app.exe))))) &&
      (spec == [] && app.exe == [] ==>
        t == Some(Target(FromExe, l.base, ButtonPath(l, Stem(l.base))))) &&
      (spec != [] ==> (t == None <==> Classify(spec) == PngImage || Classify(spec) == OtherFile)) &&
      (spec != [] && Classify(spec) == IcoImage ==>
        t == Some(Target(FromIco, Resolve(l.base, spec), ButtonPath(l, Stem(spec))))) &&
      (spec != [] && Classify(spec) == ExeFile ==>
        t == Some(Target(FromExe, Resolve(l.base, spec), ButtonPath(l, Stem(spec)))))
  {
    var spec := Strip(app.icon);
    if spec != [] {
      ResolveKeepsName(l.base, spec);
    }
    if app.exe != [] {
      ResolveKeepsName(l.base, app.exe);
    }
  }

  /** A window target exists exactly for a non-empty `.exe` spec, and always writes `window_icon.ico`. */
  lemma WindowTargetIff(l: Layout, spec: string)
    ensures WindowTargetOf(l, spec).Some? <==> spec != [] && Classify(spec) == ExeFile
    ensures WindowTargetOf(l, spec).Some? ==>
      WindowTargetOf(l, spec).value == WindowTarget(Resolve(l.base, spec), WindowIconPath(l))
  {
    if spec != [] {
      ResolveKeepsName(l.base, spec);
    }
  }

  /** The worklist of a concatenation is the concatenation of the worklists: order is kept. */
  lemma AppTargetsAppend(l: Layout, a: seq<AppRecord>, b: seq<AppRecord>)
    ensures AppTargets(l, a + b) == AppTargets(l, a) + AppTargets(l, b)
  {
    FilterMapAppend((app: AppRecord) => AppTargetOf(l, app), a, b);
  }

  /** Each application contributes its own target, if any, and nothing else. */
  lemma AppTargetsOne(l: Layout, app: AppRecord)
    ensures AppTargets(l, [app]) == AppTargetOf(l, app).ToSeq()
  {
    assert [app][1..] == [];
  }

  /** Only an `.ico` source is converted with the `"ico"` mode. */
  lemma TargetKinds(l: Layout, apps: seq<AppRecord>)
    ensures forall k :: 0 <= k < |AppTargets(l, apps)| && AppTargets(l, apps)[k].kind == FromIco ==>
      Classify(AppTargets(l, apps)[k].source) == IcoImage
  {
    var f := (app: AppRecord) => AppTargetOf(l, app);
    forall k | 0 <= k < |AppTargets(l, apps)| {
      FilterMapFrom(f, apps, k);
    }
  }

  /** With an absolute `BASE`, an application's target has an absolute source and output. */
  lemma AppTargetAbsolute(l: Layout, app: AppRecord)
    requires ValidLayout(l)
    ensures AppTargetOf(l, app).Some? ==>
      IsAbsolute(AppTargetOf(l, app).value.source) && IsAbsolute(AppTargetOf(l, app).value.output)
  {
    ResolveAbsolute(l.base, Strip(app.icon));
    ResolveAbsolute(l.base, app.exe);
  }

  /** With an absolute `BASE`, every source and every output of the worklist is absolute. */
  lemma TargetsAbsolute(l: Layout, apps: seq<AppRecord>)
    requires ValidLayout(l)
    ensures forall k :: 0 <= k < |AppTargets(l, apps)| ==>
      IsAbsolute(AppTargets(l, apps)[k].source) && IsAbsolute(AppTargets(l, apps)[k].output)
  {
    var f := (app: AppRecord) => AppTargetOf(l, app);
    var r := AppTargets(l, apps);
    forall k | 0 <= k < |r| ensures IsAbsolute(r[k].source) && IsAbsolute(r[k].output) {
      FilterMapFrom(f, apps, k);
      var i :| 0 <= i < |apps| && f(apps[i]) == Some(AppTargets(l, apps)[k]);
      AppTargetAbsolute(l, apps[i]);
    }
  }

  /** Two sources get the same button image exactly when their stems agree. */
  lemma ButtonPathInjective(l: Layout, a: string, b: string)
    ensures ButtonPath(l, a) == ButtonPath(l, b) <==> a == b
  {
    if ButtonPath(l, a) == ButtonPath(l, b) {
      var pre := CacheDir(l) + ['\\'] + "btn_";
      assert ButtonPath(l, a) == pre + a + ".png";
      assert ButtonPath(l, b) == pre + b + ".png";
      assert |a| == |b|;
      assert forall i :: 0 <= i < |a| ==> a[i] == ButtonPath(l, a)[|pre| + i] && b[i] == ButtonPath(l, b)[|pre| + i];
    }
  }

  /** The window icon never coincides with a button image. */
  lemma WindowOutputDistinct(l: Layout, stem: string)
    ensures WindowIconPath(l) != ButtonPath(l, stem)
  {
    var c := CacheDir(l);
    assert WindowIconPath(l)[|c| + 1] == 'w';
    assert ButtonPath(l, stem)[|c| + 1] == 'b';
  }
}
