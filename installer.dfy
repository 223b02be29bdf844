/**
 * The patch flow of installer.py over an abstract filesystem: for each
 * version folder, whether `resources/app.asar` is present and which file
 * tree it packs, and whether `resources/unpacked` is present and what it
 * holds. The asar tool, the network, the codecs and the operating system's
 * deletions are outcomes supplied in an `Env` record.
 */
module Installer {
  import opened Wrappers
  import opened Versions
  import opened Injection

  /** A directory tree: relative path to file contents. An archive is modelled by the tree it packs. */
  type Tree = map<string, string>

  lemma UpdateSame<K, V>(m: map<K, V>, k: K)
    requires k in m
    ensures m[k := m[k]] == m
  {
  }

  lemma RemoveAbsent<K, V>(m: map<K, V>, k: K)
    requires k !in m
    ensures m - {k} == m
  {
  }

  lemma RemoveThenUpdate<K, V>(m: map<K, V>, k: K, v: V)
    ensures (m - {k})[k := v] == m[k := v]
  {
  }

  lemma UpdateTwice<K, V>(m: map<K, V>, k: K, a: V, b: V)
    ensures m[k := a][k := b] == m[k := b]
  {
  }

  const ScriptPath := "pc-dist/zalorcustomemoji.user.js"
  const HtmlPath := "pc-dist/index.html"
  const ScriptSrc := "./zalorcustomemoji.user.js"
  const Marker := "</body>"

  /** The tag added to index.html. */
  function Tag(): string
  {
    ScriptTag(ScriptSrc)
  }

  /** What `asar extract` does once it is started: unpack the archive, or fail leaving some files behind. */
  datatype ExtractRun = Extracted | ExtractionFailed(leftover: Tree)

  /** What `download_file` meets: the script body, a `RequestException`, or an `OSError` while saving. */
  datatype DownloadRun = Fetched(body: string) | NetworkError | SaveError

  /** The outcomes of every call into the outside world during one run. */
  datatype Env = Env(
    toolFound: bool,           // the asar executable is found before extracting
    removeStaleOk: bool,       // `rmtree` of an existing `unpacked` directory succeeds
    mkdirOk: bool,             // creating `unpacked` succeeds
    extract: ExtractRun,
    download: DownloadRun,
    decode: Encoding -> ReadAttempt,
    writeOk: bool,             // `write_text` of the modified index.html succeeds
    packToolFound: bool,       // the asar executable is found before repacking
    unlinkOk: bool,            // deleting the old app.asar succeeds
    packOk: bool,              // `asar pack` succeeds
    cleanupOk: bool)           // the final `rmtree` of `unpacked` succeeds

  /** The files of all version folders. */
  datatype Fs = Fs(asar: map<string, Tree>, unpacked: map<string, Tree>)

  /** A step's boolean result and the filesystem after it. */
  datatype Step = Step(ok: bool, fs: Fs)

  /** The exit `find_latest_zalo` takes. */
  datatype Outcome =
    | BaseDirMissing
    | NoVersionFolder
    | AsarMissing
    | ExtractFailed
    | DownloadFailed
    | InjectFailed
    | RepackFailed
    | Finished(cleanupWarning: bool)

  // ---------------------------------------------------------------------
  // Specification of each step

  /** `extract_asar(asar_path, unpacked_folder)`. */
  function Extract(fs: Fs, f: string, env: Env): Step
  {
    if !env.toolFound || f !in fs.asar then Step(false, fs)
    else if f in fs.unpacked && !env.removeStaleOk then Step(false, fs)
    else if !env.mkdirOk then Step(false, fs.(unpacked := fs.unpacked - {f}))
    else
      match env.extract
      case Extracted => Step(true, fs.(unpacked := fs.unpacked[f := fs.asar[f]]))
      case ExtractionFailed(leftover) => Step(false, fs.(unpacked := fs.unpacked[f := leftover]))
  }

  /** The `unpacked` tree of `f` once `mkdir(parents=True, exist_ok=True)` has run. */
  function UnpackedOrEmpty(fs: Fs, f: string): Tree
  {
    if f in fs.unpacked then fs.unpacked[f] else map[]
  }

  /** `download_file(CUSTOM_SCRIPT_URL, custom_script_path)`. */
  function Download(fs: Fs, f: string, env: Env): Step
  {
    match env.download
    case Fetched(body) =>
      Step(true, fs.(unpacked := fs.unpacked[f := UnpackedOrEmpty(fs, f)[ScriptPath := body]]))
    case NetworkError =>
      Step(false, fs.(unpacked := fs.unpacked[f := UnpackedOrEmpty(fs, f) - {ScriptPath}]))
    case SaveError => Step(false, fs)
  }

  /** The file-level part of `inject_script_to_html` on one tree: `None` is a `False` result. */
  function InjectIntoTree(tree: Tree, decode: Encoding -> ReadAttempt, writeOk: bool): Option<Tree>
  {
    if HtmlPath !in tree then None
    else if !FirstDecoding(decode, Encodings).ReadAs? then None
    else
      match InjectTag(tree[HtmlPath], Tag(), Marker)
      case MarkerNotFound => None
      case AlreadyInjected => Some(tree)
      case Inserted(n) => if writeOk then Some(tree[HtmlPath := n]) else None
  }

  /** `inject_script_to_html(html_path, script_relative_src, INJECTION_MARKER)`. */
  function Inject(fs: Fs, f: string, env: Env): Step
  {
    if f !in fs.unpacked then Step(false, fs)
    else
      match InjectIntoTree(fs.unpacked[f], env.decode, env.writeOk)
      case None => Step(false, fs)
      case Some(t) => Step(true, fs.(unpacked := fs.unpacked[f := t]))
  }

  /** `repack_asar(unpacked_folder, asar_path)`. */
  function Repack(fs: Fs, f: string, env: Env): Step
  {
    if !env.packToolFound || f !in fs.unpacked then Step(false, fs)
    else if env.packOk then Step(true, fs.(asar := fs.asar[f := fs.unpacked[f]]))
    else if f in fs.asar && env.unlinkOk then Step(false, fs.(asar := fs.asar - {f}))
    else Step(false, fs)
  }

  /** `shutil.rmtree(unpacked_folder, ...)` when it succeeds. */
  function RemoveUnpacked(fs: Fs, f: string): Fs
  {
    fs.(unpacked := fs.unpacked - {f})
  }

  /** A run's exit and the filesystem it leaves. */
  datatype Run = Run(outcome: Outcome, fs: Fs)

  /** `find_latest_zalo` from the `app.asar` check on, for the chosen folder `f`. */
  function Patch(fs: Fs, f: string, env: Env): Run
  {
    if f !in fs.asar then Run(AsarMissing, fs)
    else
      var x := Extract(fs, f, env);
      if !x.ok then Run(ExtractFailed, x.fs)
      else
        var d := Download(x.fs, f, env);
        if !d.ok then Run(DownloadFailed, RemoveUnpacked(d.fs, f))
        else
          var i := Inject(d.fs, f, env);
          if !i.ok then Run(InjectFailed, RemoveUnpacked(i.fs, f))
          else
            var p := Repack(i.fs, f, env);
            if !p.ok then Run(RepackFailed, p.fs)
            else if env.cleanupOk then Run(Finished(false), RemoveUnpacked(p.fs, f))
            else Run(Finished(true), p.fs)
  }

  /** The tree a successful run packs into app.asar: the script added, then index.html patched. */
  function PatchTree(tree: Tree, body: string, env: Env): Option<Tree>
  {
    InjectIntoTree(tree[ScriptPath := body], env.decode, env.writeOk)
  }

  // ---------------------------------------------------------------------
  // Properties of the steps

  /** Both guards of `extract_asar` come before any deletion; on success `unpacked` is exactly the archive. */
  lemma ExtractGuards(fs: Fs, f: string, env: Env)
    ensures !env.toolFound || f !in fs.asar ==> Extract(fs, f, env) == Step(false, fs)
    ensures f in fs.unpacked && !env.removeStaleOk ==> Extract(fs, f, env) == Step(false, fs)
    ensures Extract(fs, f, env).fs.asar == fs.asar
    ensures Extract(fs, f, env).ok <==>
      env.toolFound && f in fs.asar && (f !in fs.unpacked || env.removeStaleOk)
      && env.mkdirOk && env.extract.Extracted?
    ensures Extract(fs, f, env).ok ==> Extract(fs, f, env).fs.unpacked == fs.unpacked[f := fs.asar[f]]
    ensures forall g :: g != f ==>
      (g in Extract(fs, f, env).fs.unpacked <==> g in fs.unpacked)
    ensures forall g :: g != f && g in fs.unpacked ==>
      Extract(fs, f, env).fs.unpacked[g] == fs.unpacked[g]
  {
  }

  /**
   * `repack_asar` checks the tool and its source directory before deleting
   * the old archive; a deletion failure does not stop the packing; the
   * extracted tree is never changed; the old archive survives a failed pack
   * exactly when it could not be deleted.
   */
  lemma RepackGuards(fs: Fs, f: string, env: Env)
    ensures !env.packToolFound || f !in fs.unpacked ==> Repack(fs, f, env) == Step(false, fs)
    ensures Repack(fs, f, env).fs.unpacked == fs.unpacked
    ensures Repack(fs, f, env).ok <==> env.packToolFound && f in fs.unpacked && env.packOk
    ensures Repack(fs, f, env).ok ==> Repack(fs, f, env).fs.asar == fs.asar[f := fs.unpacked[f]]
    ensures env.packToolFound && f in fs.unpacked && !env.packOk && f in fs.asar ==>
      (f in Repack(fs, f, env).fs.asar <==> !env.unlinkOk)
    ensures env.packToolFound && f in fs.unpacked && !env.packOk && !env.unlinkOk ==>
      Repack(fs, f, env).fs.asar == fs.asar
    ensures forall g :: g != f ==>
      (g in Repack(fs, f, env).fs.asar <==> g in fs.asar)
  {
  }

  /**
   * A successful tree injection keeps every path and changes no file but
   * index.html, which is either unchanged (the tag was already there) or
   * what `InjectTag` inserted.
   */
  lemma InjectIntoTreeChangesOnlyHtml(tree: Tree, decode: Encoding -> ReadAttempt, writeOk: bool)
    requires InjectIntoTree(tree, decode, writeOk).Some?
    ensures var t := InjectIntoTree(tree, decode, writeOk).value;
      t.Keys == tree.Keys
      && (forall k :: k in tree && k != HtmlPath ==> t[k] == tree[k])
      && (t[HtmlPath] == tree[HtmlPath] || InjectTag(tree[HtmlPath], Tag(), Marker) == Inserted(t[HtmlPath]))
  {
  }

  /** Injecting into an already patched tree succeeds without writing, whatever the write would do. */
  lemma InjectIntoTreeIdempotent(tree: Tree, decode: Encoding -> ReadAttempt, writeOk: bool, writeOk': bool)
    requires InjectIntoTree(tree, decode, writeOk).Some?
    ensures var t := InjectIntoTree(tree, decode, writeOk).value;
      InjectIntoTree(t, decode, writeOk') == Some(t)
  {
    var t := InjectIntoTree(tree, decode, writeOk).value;
    match InjectTag(tree[HtmlPath], Tag(), Marker)
    case AlreadyInjected =>
    case Inserted(n) =>
      SecondInjectionFindsTag(tree[HtmlPath], Tag(), Marker);
      assert t[HtmlPath] == n;
  }

  /** The script and index.html are different files. */
  lemma PathsDiffer()
    ensures ScriptPath != HtmlPath
  {
    assert |ScriptPath| != |HtmlPath|;
  }

  /** Patching a patched tree again with the same script gives it back unchanged. */
  lemma PatchTreeIdempotent(tree: Tree, body: string, env: Env)
    requires PatchTree(tree, body, env).Some?
    ensures PatchTree(PatchTree(tree, body, env).value, body, env) == PatchTree(tree, body, env)
  {
    var t := PatchTree(tree, body, env).value;
    PathsDiffer();
    InjectIntoTreeChangesOnlyHtml(tree[ScriptPath := body], env.decode, env.writeOk);
    assert t[ScriptPath := body] == t;
    InjectIntoTreeIdempotent(tree[ScriptPath := body], env.decode, env.writeOk, env.writeOk);
  }

  // ---------------------------------------------------------------------
  // Which artifacts survive each exit

  /** Without app.asar the run stops before extracting, downloading or deleting anything. */
  lemma MissingArchiveChangesNothing(fs: Fs, f: string, env: Env)
    requires f !in fs.asar
    ensures Patch(fs, f, env) == Run(AsarMissing, fs)
  {
  }

  /** app.asar is untouched on every exit before the repack step. */
  lemma ArchiveUntouchedBeforeRepack(fs: Fs, f: string, env: Env)
    ensures var r := Patch(fs, f, env);
      r.outcome in {AsarMissing, ExtractFailed, DownloadFailed, InjectFailed} ==> r.fs.asar == fs.asar
  {
    var x := Extract(fs, f, env);
    ExtractGuards(fs, f, env);
  }

  /** After a failed download or injection the temporary directory is removed. */
  lemma AbortRemovesUnpacked(fs: Fs, f: string, env: Env)
    ensures var r := Patch(fs, f, env);
      r.outcome == DownloadFailed || r.outcome == InjectFailed ==> f !in r.fs.unpacked
  {
  }

  /**
   * app.asar changes only when the repack step ran, which happens only after
   * the script was downloaded and index.html injected successfully; a
   * successful run stores exactly the patched tree of the old archive.
   */
  lemma ArchiveRewrittenOnlyAfterInjection(fs: Fs, f: string, env: Env)
    ensures var r := Patch(fs, f, env);
      r.fs.asar != fs.asar ==> r.outcome == RepackFailed || r.outcome.Finished?
    ensures var r := Patch(fs, f, env);
      r.outcome == RepackFailed || r.outcome.Finished? ==>
        f in fs.asar && env.download.Fetched?
        && PatchTree(fs.asar[f], env.download.body, env).Some?
    ensures var r := Patch(fs, f, env);
      r.outcome.Finished? ==>
        r.fs.asar == fs.asar[f := PatchTree(fs.asar[f], env.download.body, env).value]
  {
    ArchiveUntouchedBeforeRepack(fs, f, env);
    if f in fs.asar {
      var x := Extract(fs, f, env);
      ExtractGuards(fs, f, env);
      if x.ok {
        var d := Download(x.fs, f, env);
        if d.ok {
          assert d.fs.unpacked[f] == fs.asar[f][ScriptPath := env.download.body];
        }
      }
    }
  }

  /** A failed repack keeps the patched `unpacked` tree for inspection. */
  lemma RepackFailureKeepsUnpacked(fs: Fs, f: string, env: Env)
    ensures var r := Patch(fs, f, env);
      r.outcome == RepackFailed ==>
        f in fs.asar && env.download.Fetched?
        && f in r.fs.unpacked
        && Some(r.fs.unpacked[f]) == PatchTree(fs.asar[f], env.download.body, env)
  {
    if f in fs.asar {
      var x := Extract(fs, f, env);
      ExtractGuards(fs, f, env);
      if x.ok {
        var d := Download(x.fs, f, env);
        if d.ok {
          assert d.fs.unpacked[f] == fs.asar[f][ScriptPath := env.download.body];
        }
      }
    }
  }

  /** A successful run removes `unpacked` unless the removal fails, which is only reported as a warning. */
  lemma SuccessCleansUp(fs: Fs, f: string, env: Env)
    ensures var r := Patch(fs, f, env);
      r.outcome.Finished? ==> (f in r.fs.unpacked <==> r.outcome.cleanupWarning)
    ensures var r := Patch(fs, f, env);
      r.outcome.Finished? ==> (r.outcome.cleanupWarning <==> !env.cleanupOk)
  {
  }

  /** Folder `g` has the same files in `a` and `b`. */
  predicate Agree(a: Fs, b: Fs, g: string)
  {
    (g in a.asar <==> g in b.asar) && (g in a.asar ==> a.asar[g] == b.asar[g])
    && (g in a.unpacked <==> g in b.unpacked) && (g in a.unpacked ==> a.unpacked[g] == b.unpacked[g])
  }

  // Each step of a run on folder `f` leaves every other folder `g` alone.

  lemma ExtractKeepsOtherFolders(fs: Fs, f: string, env: Env, g: string)
    requires g != f
    ensures Agree(fs, Extract(fs, f, env).fs, g)
  {
  }

  lemma DownloadKeepsOtherFolders(fs: Fs, f: string, env: Env, g: string)
    requires g != f
    ensures Agree(fs, Download(fs, f, env).fs, g)
  {
  }

  lemma InjectKeepsOtherFolders(fs: Fs, f: string, env: Env, g: string)
    requires g != f
    ensures Agree(fs, Inject(fs, f, env).fs, g)
  {
  }

  lemma RepackKeepsOtherFolders(fs: Fs, f: string, env: Env, g: string)
    requires g != f
    ensures Agree(fs, Repack(fs, f, env).fs, g)
  {
  }

  lemma RemoveUnpackedKeepsOtherFolders(fs: Fs, f: string, g: string)
    requires g != f
    ensures Agree(fs, RemoveUnpacked(fs, f), g)
  {
  }

  /** Other version folders are never touched. */
  lemma OtherFoldersUntouched(fs: Fs, f: string, env: Env, g: string)
    requires g != f
    ensures Agree(fs, Patch(fs, f, env).fs, g)
  {
    var x := Extract(fs, f, env);
    ExtractKeepsOtherFolders(fs, f, env, g);
    var d := Download(x.fs, f, env);
    DownloadKeepsOtherFolders(x.fs, f, env, g);
    RemoveUnpackedKeepsOtherFolders(d.fs, f, g);
    var i := Inject(d.fs, f, env);
    InjectKeepsOtherFolders(d.fs, f, env, g);
    RemoveUnpackedKeepsOtherFolders(i.fs, f, g);
    var p := Repack(i.fs, f, env);
    RepackKeepsOtherFolders(i.fs, f, env, g);
    RemoveUnpackedKeepsOtherFolders(p.fs, f, g);
  }

  /** A clean success: every call the run depends on succeeded (tool lookups, `mkdir`, extraction, download, pack, cleanup), app.asar holds the patched tree and `unpacked` is gone. */
  lemma CleanRunFacts(fs: Fs, f: string, env: Env)
    requires Patch(fs, f, env).outcome == Finished(false)
    ensures f in fs.asar && env.download.Fetched?
    ensures env.packToolFound && env.packOk && env.cleanupOk && env.toolFound && env.mkdirOk
    ensures env.extract.Extracted?
    ensures PatchTree(fs.asar[f], env.download.body, env).Some?
    ensures Patch(fs, f, env).fs == Fs(fs.asar[f := PatchTree(fs.asar[f], env.download.body, env).value],
      fs.unpacked - {f})
  {
    ArchiveRewrittenOnlyAfterInjection(fs, f, env);
    var x := Extract(fs, f, env);
    ExtractGuards(fs, f, env);
    var d := Download(x.fs, f, env);
    var i := Inject(d.fs, f, env);
    var p := Repack(i.fs, f, env);
    RepackGuards(i.fs, f, env);
    assert i.fs.unpacked - {f} == fs.unpacked - {f};
  }

  /** A run over an archive that already holds a tree its patch leaves unchanged, with no `unpacked`, changes nothing. */
  lemma RerunOnPatched(fs: Fs, f: string, env: Env)
    requires f in fs.asar && f !in fs.unpacked && env.download.Fetched?
    requires env.packToolFound && env.packOk && env.cleanupOk && env.toolFound && env.mkdirOk
    requires env.extract.Extracted?
    requires PatchTree(fs.asar[f], env.download.body, env) == Some(fs.asar[f])
    ensures Patch(fs, f, env) == Run(Finished(false), fs)
  {
    var t := fs.asar[f];
    PathsDiffer();
    InjectIntoTreeChangesOnlyHtml(t[ScriptPath := env.download.body], env.decode, env.writeOk);
    assert t[ScriptPath := env.download.body] == t;
    var x := Extract(fs, f, env);
    assert x == Step(true, fs.(unpacked := fs.unpacked[f := t]));
    var d := Download(x.fs, f, env);
    UpdateTwice(fs.unpacked, f, t, t[ScriptPath := env.download.body]);
    assert d == x;
    var i := Inject(d.fs, f, env);
    assert i == x;
    var p := Repack(i.fs, f, env);
    UpdateSame(fs.asar, f);
    assert p.fs.asar == fs.asar;
    assert RemoveUnpacked(p.fs, f) == fs;
  }

  /** Running the installer again after a clean success changes nothing more. */
  lemma InstallIdempotent(fs: Fs, f: string, env: Env)
    requires Patch(fs, f, env).outcome == Finished(false)
    ensures Patch(Patch(fs, f, env).fs, f, env) == Patch(fs, f, env)
  {
    CleanRunFacts(fs, f, env);
    var body := env.download.body;
    PatchTreeIdempotent(fs.asar[f], body, env);
    RerunOnPatched(Patch(fs, f, env).fs, f, env);
  }

  // ---------------------------------------------------------------------
  // The installer as a program over the filesystem

  class Installation {
    var baseIsDir: bool
    var folders: seq<Entry>
    var asar: map<string, Tree>
    var unpacked: map<string, Tree>

    constructor(baseIsDir: bool, folders: seq<Entry>, asar: map<string, Tree>, unpacked: map<string, Tree>)
      ensures this.baseIsDir == baseIsDir && this.folders == folders
      ensures this.asar == asar && this.unpacked == unpacked
    {
      this.baseIsDir := baseIsDir;
      this.folders := folders;
      this.asar := asar;
      this.unpacked := unpacked;
    }

    function Files(): Fs
      reads this
    {
      Fs(asar, unpacked)
    }

    /** Lines 92-150: the tool check, the source check, then rmtree, mkdir and the tool. */
    method ExtractAsar(f: string, env: Env) returns (ok: bool)
      modifies this`unpacked
      ensures Step(ok, Files()) == Extract(old(Files()), f, env)
    {
      if !env.toolFound {
        return false;
      }
      if f !in asar {
        return false;
      }
      ghost var before := unpacked;
      if f in unpacked {
        if !env.removeStaleOk {
          return false;
        }
        unpacked := unpacked - {f};
      } else {
        RemoveAbsent(unpacked, f);
      }
      if !env.mkdirOk {
        return false;
      }
      RemoveThenUpdate(before, f, map[]);
      unpacked := unpacked[f := map[]];
      match env.extract {
        case Extracted =>
          UpdateTwice(before, f, map[], asar[f]);
          unpacked := unpacked[f := asar[f]];
          return true;
        case ExtractionFailed(leftover) =>
          UpdateTwice(before, f, map[], leftover);
          unpacked := unpacked[f := leftover];
          return false;
      }
    }

    /** Lines 203-227: create the directory, fetch, save; a network error deletes the destination file. */
    method DownloadScript(f: string, env: Env) returns (ok: bool)
      modifies this`unpacked
      ensures Step(ok, Files()) == Download(old(Files()), f, env)
    {
      if env.download.SaveError? {
        return false;
      }
      if f !in unpacked {
        unpacked := unpacked[f := map[]];
      }
      match env.download {
        case Fetched(body) =>
          unpacked := unpacked[f := unpacked[f][ScriptPath := body]];
          return true;
        case NetworkError =>
          unpacked := unpacked[f := unpacked[f] - {ScriptPath}];
          return false;
      }
    }

    /** Lines 229-283: check the file, read it with the encoding fallback, inject, write. */
    method InjectScriptToHtml(f: string, env: Env) returns (ok: bool)
      modifies this`unpacked
      ensures Step(ok, Files()) == Inject(old(Files()), f, env)
    {
      if f !in unpacked || HtmlPath !in unpacked[f] {
        return false;
      }
      var read := ReadWithFallback(env.decode);
      if !read.ReadAs? {
        return false;
      }
      match InjectTag(unpacked[f][HtmlPath], Tag(), Marker) {
        case MarkerNotFound =>
          return false;
        case AlreadyInjected =>
          return true;
        case Inserted(n) =>
          if !env.writeOk {
            return false;
          }
          unpacked := unpacked[f := unpacked[f][HtmlPath := n]];
          return true;
      }
    }

    /** Lines 152-201: the tool check, the source check, unlink (a failure only warns), then the tool. */
    method RepackAsar(f: string, env: Env) returns (ok: bool)
      modifies this`asar
      ensures Step(ok, Files()) == Repack(old(Files()), f, env)
    {
      if !env.packToolFound {
        return false;
      }
      if f !in unpacked {
        return false;
      }
      if f in asar && env.unlinkOk {
        asar := asar - {f};
      }
      if env.packOk {
        asar := asar[f := unpacked[f]];
        return true;
      }
      return false;
    }

    /** `shutil.rmtree(unpacked_folder, ignore_errors=True)` behind `if unpacked_folder.exists()`. */
    method AbandonUnpacked(f: string)
      modifies this`unpacked
      ensures Files() == RemoveUnpacked(old(Files()), f)
    {
      if f in unpacked {
        unpacked := unpacked - {f};
      }
    }

    /**
     * Lines 338-392, for the chosen folder `f`: check app.asar, then extract,
     * download, inject, repack and clean up, stopping at the first failure.
     */
    method PatchFolder(f: string, env: Env) returns (outcome: Outcome)
      modifies this`asar, this`unpacked
      ensures Run(outcome, Files()) == Patch(old(Files()), f, env)
    {
      if f !in asar {
        return AsarMissing;
      }
      var ok := ExtractAsar(f, env);
      if !ok {
        return ExtractFailed;
      }
      ok := DownloadScript(f, env);
      if !ok {
        AbandonUnpacked(f);
        return DownloadFailed;
      }
      ok := InjectScriptToHtml(f, env);
      if !ok {
        AbandonUnpacked(f);
        return InjectFailed;
      }
      ok := RepackAsar(f, env);
      if !ok {
        return RepackFailed;
      }
      if env.cleanupOk {
        unpacked := unpacked - {f};
        return Finished(false);
      }
      return Finished(true);
    }

    /**
     * Lines 286-392: stop if the base directory is missing, scan and pick the
     * latest version folder, then patch it.
     */
    method FindLatestZalo(env: Env) returns (outcome: Outcome, chosen: Option<Candidate>)
      modifies this`asar, this`unpacked
      ensures !baseIsDir ==> outcome == BaseDirMissing && chosen == None
      ensures baseIsDir && Candidates(folders) == [] ==> outcome == NoVersionFolder && chosen == None
      ensures chosen.None? <==> !baseIsDir || Candidates(folders) == []
      ensures chosen.None? ==> Files() == old(Files())
      ensures chosen.Some? ==> baseIsDir
      ensures chosen.Some? ==>
        exists k: nat :: IsLatest(Candidates(folders), k) && Candidates(folders)[k] == chosen.value
      ensures chosen.Some? ==>
        Run(outcome, Files()) == Patch(old(Files()), chosen.value.folder, env)
    {
      if !baseIsDir {
        return BaseDirMissing, None;
      }
      var found := ScanVersions(folders);
      var latest := LatestOf(found);
      if latest.None? {
        return NoVersionFolder, None;
      }
      chosen := Some(found[latest.value]);
      outcome := PatchFolder(found[latest.value].folder, env);
    }
  }
}
