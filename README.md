# Zalo custom-reaction installer: a Dafny model

`installer.py` patches the Zalo desktop client in five steps:
1. It finds the newest installed version folder (`Zalo-x.y.z` or `ZaloPC-x.y.z`).
2. It extracts that folder's `resources/app.asar` into `resources/unpacked` with the `asar` tool.
3. It downloads a user script into `pc-dist/`.
4. It inserts a `<script src="./zalorcustomemoji.user.js"></script>` tag before the last `</body>` of `pc-dist/index.html`.
5. It repacks the directory over `app.asar` and deletes the temporary directory.

The project models three parts.

- **`Versions`** (`versions.dfy`) covers version discovery.
  - `ParseVersion` is the anchored, case-insensitive pattern `(ZaloPC|Zalo)-(\d+)\.(\d+)\.(\d+)`. It is a pure function from a folder name to `Option<Version>`, and `ParseVersionSpec` characterizes it exactly.
  - `ScanVersions` is the directory scan loop.
  - `LatestOf` is the loop that picks what `sort(reverse=True)[0]` picks: the first maximal triple in scan order, because Python's sort is stable.
- **`Injection`** (`injection.dfy`) covers the string core of `inject_script_to_html`.
  - `LastIndexOf` models `rindex`, with the missing-marker case as `None`.
  - `Window` is the window of `len(tag) + 10` characters searched for the tag.
  - `InjectTag` computes the insertion.
  - `ReadWithFallback` is the utf-8 / cp1252 / latin-1 encoding loop.
- **`Installer`** (`installer.dfy`) covers the patch flow over an abstract filesystem.
  - For each version folder, the state records whether `app.asar` exists and the file tree it packs, and whether `unpacked` exists and what it holds.
  - Each step is a pure function (`Extract`, `Download`, `Inject`, `Repack`, and `Patch` for the whole run after selection). `Installation` is a class holding that state, and its methods do the same steps by updating fields.
  - Each method is proved equal to its function, and the survival properties are lemmas about the functions.

`Text` (`text.dfy`) holds ASCII lower-casing and `Wrappers` (`wrappers.dfy`) holds `Option`.

Everything outside the program is a parameter (an `Env` record): whether the asar tool is found, whether each `rmtree` / `mkdir` / `unlink` succeeds, what `asar extract` and `asar pack` do, what the download returns, which encodings decode the HTML, and whether the write succeeds. The base directory and its entries are given as the `Installation`'s fields.

The code has no archive backup, no rename and no rollback: `repack_asar` deletes the old `app.asar` if it can, and packs over it in place.

## Model

| member | source | states |
|---|---|---|
| Versions.ParseVersionSpec | installer.py:85-90 | `ParseVersion(name) == Some(v)` exactly when `name` is a `Zalo-` or `ZaloPC-` prefix in any letter case, three non-empty digit runs separated by dots whose decimal values are `v`, and then anything not starting with a digit |
| Versions.ParseIgnoresSuffix | installer.py:87 | the pattern is anchored only at the start: appending any text that does not start with a digit to a parsable name keeps its version |
| Versions.ParseIgnoresCase | installer.py:87 | `re.IGNORECASE`: lower-casing a name does not change its parse |
| Versions.LeadingZeroIgnored | installer.py:89 | `int()` of a digit run ignores leading zeros |
| Versions.DigitRun | installer.py:87 | `\d+` is greedy: the run is all digits and is followed by a non-digit or the end |
| Versions.ScanVersions | installer.py:310-315 | the scan loop collects exactly `Candidates(entries)`: each folder (not file) whose name parses, in scan order, with its version |
| Versions.CandidatesMembers | installer.py:310-315 | a candidate is in the list exactly when some directory entry with that name parses to that version |
| Versions.ParseZaloName | installer.py:87-89 | `Zalo-` followed by three non-empty digit runs separated by dots parses to their decimal values |
| Versions.AtMostIsTotalOrder | installer.py:323 | tuple comparison of version triples is reflexive, transitive and total |
| Versions.LatestOf | installer.py:318-324 | no candidate gives `None`; otherwise the index of a triple at least every other, and strictly greater than every earlier one, which is the element a stable descending sort puts first |
| Versions.LatestIsUnique | installer.py:323-324 | that index is unique, so the choice is determined |
| Versions.ExampleSelectsNumericMaximum | installer.py:305-324 | of `Zalo-1.2.3`, `Zalo-1.10.0` and a non-version folder, only the first two are candidates and `Zalo-1.10.0` is chosen (numeric, not string order) |
| Injection.LastIndexOf | installer.py:262-267 | `None` exactly when the marker does not occur; otherwise an occurrence with none after it (`rindex`) |
| Injection.LastMatchFrom | installer.py:264 | the downward search finds the last occurrence at or before its start index |
| Injection.InjectTag | installer.py:262-267 | the marker is reported missing exactly when its lower-cased form does not occur in the lower-cased document; an insertion adds exactly `len(tag) + 1` characters |
| Injection.InjectAtLastMarker | installer.py:240-274 | at the last case-insensitive occurrence `p` of the marker: nothing is written if the tag is in `content[max(0, p-len(tag)-10):p]`, otherwise the result is `content[:p] + tag + "\n" + content[p:]` |
| Injection.InsertedBeforeMarker | installer.py:274 | an insertion splits the document at a point where the marker begins |
| Injection.InsertionShiftsLastMatch | installer.py:264-274 | after inserting text at the last marker, the last marker occurs right after the inserted text |
| Injection.SecondInjectionFindsTag | installer.py:269-272 | injecting into a freshly injected document reports "already injected" and writes nothing |
| Injection.InjectIdempotent | installer.py:269-275 | the document after two injections equals the document after one |
| Injection.InjectExample | installer.py:262-274 | `<p>hi</p></body></html>` becomes `<p>hi</p>` + tag + newline + `</body></html>` |
| Injection.FirstDecoding | installer.py:246-260 | the encoding read with is the first that decodes, after decoding errors only; undecodable exactly when every encoding fails to decode; any other read error ends the search |
| Injection.ReadWithFallback | installer.py:246-260 | the loop with its `break` and early `return` computes `FirstDecoding` over utf-8, cp1252, latin-1 |
| Injection.DottedCapitalISplitsMarker | installer.py:262-274 | as written, a document `İ</body>` gets the tag between `<` and `/body>` |
| Injection.DottedCapitalIKeepsMarker | installer.py:262-274 | searching the per-character lower-cased text, the same document gets the tag right before `</body>` |
| Injection.PyLowerOfLowerCase | installer.py:262 | `str.lower()`, and `PyLower` which models it, leave ASCII text without upper-case letters unchanged |
| Installer.ExtractGuards | installer.py:97-127 | a missing tool or archive fails before anything is deleted; a failed removal of the old directory fails with nothing changed; extraction never touches `app.asar`; success leaves `unpacked` exactly the archive's tree; every other folder's `unpacked` keeps its presence and its contents |
| Installer.RepackGuards | installer.py:159-191 | a missing tool or source directory fails before the archive is deleted; a failed delete only warns and packing goes on; success stores the unpacked tree; after a failed pack the old archive survives, unchanged, exactly when it could not be deleted; `unpacked` is never changed |
| Installer.InjectIntoTreeChangesOnlyHtml | installer.py:232-275 | a successful injection changes no file but index.html, which is unchanged or the result of `InjectTag` |
| Installer.InjectIntoTreeIdempotent | installer.py:269-272 | injecting into an injected tree succeeds without needing the write |
| Installer.PatchTreeIdempotent | installer.py:353-375 | downloading the same script and injecting again leaves a patched tree unchanged |
| Installer.MissingArchiveChangesNothing | installer.py:338-340 | without `app.asar` the run stops before any extraction, download or deletion |
| Installer.ArchiveUntouchedBeforeRepack | installer.py:344-372 | `app.asar` is untouched on the missing-archive, extraction, download and injection failure exits |
| Installer.AbortRemovesUnpacked | installer.py:353-372 | after a download or injection failure `unpacked` is gone |
| Installer.ArchiveRewrittenOnlyAfterInjection | installer.py:344-392 | `app.asar` changes only on the repack-failure and success exits, which need a downloaded script and a successful injection; on success `app.asar` holds exactly the downloaded-and-injected tree of the old archive |
| Installer.RepackFailureKeepsUnpacked | installer.py:376-381 | after a failed repack `unpacked` is kept and holds the patched tree |
| Installer.SuccessCleansUp | installer.py:385-392 | on success `unpacked` survives exactly when its removal failed, which is only a warning |
| Installer.OtherFoldersUntouched | installer.py:326-392 | no other version folder's files change |
| Installer.CleanRunFacts | installer.py:344-392 | a clean success means every call the run depends on succeeded (tool lookups, `mkdir`, extraction, download, pack, cleanup), while the `unlink` may fail, the stale-directory removal matters only when one exists, and the write only when the tag was missing; the archive holds the patched tree and `unpacked` is gone |
| Installer.InstallIdempotent | installer.py:344-392 | running the installer again after a clean success leaves the same files and succeeds again |
| Installer.Installation.ExtractAsar | installer.py:92-150 | step by step (tool check, source check, `rmtree`, `mkdir`, tool), the new state and result are those of `Extract` |
| Installer.Installation.DownloadScript | installer.py:203-227 | the new state and result are those of `Download`: script added, or removed on a network error |
| Installer.Installation.InjectScriptToHtml | installer.py:229-283 | the new state and result are those of `Inject`, reading through `ReadWithFallback` |
| Installer.Installation.RepackAsar | installer.py:152-201 | the new state and result are those of `Repack` |
| Installer.Installation.PatchFolder | installer.py:338-392 | step by step (archive check, extract, download, inject, repack, cleanup, with `rmtree(ignore_errors=True)` after a download or injection failure), the exit taken and the files left are those of `Patch` |
| Installer.Installation.FindLatestZalo | installer.py:286-392 | nothing is chosen exactly when the base directory is missing or holds no version folder, and then nothing changes; otherwise the chosen folder is the latest candidate, and the exit taken and the files left are those of `Patch` for it |

## Left out

- `get_asar_executable` and `get_zalo_base_path` (installer.py:34-82) are environment and `PATH` heuristics. The tool's availability is a boolean in `Env`, and the base directory is given.
- The `asar` subprocess, its exit codes and its captured output: extraction and packing succeed or fail as `Env` says. An archive is modelled as the tree it packs, so extracting a packed tree gives it back.
- The network download and its chunked writes: the body is an opaque string.
- The rest of `download_file`'s error handling. After a `RequestException` the destination file is assumed to be deleted, although its `unlink` may fail silently. Every other exception of `download_file` counts as `SaveError`.
- The broad `except Exception` handlers of `extract_asar`, `repack_asar` and `inject_script_to_html`. They return `False` like the failures they sit beside, and the model folds them into those failures.
- Partial effects are left out:
  - A partial file left by a failed save (`SaveError` changes nothing). A successful `mkdir(parents=True)` does happen when the network fails.
  - A partial deletion by a failed `rmtree`, including the `ignore_errors=True` cleanup, which the model treats as removing the whole directory.
  - A partial write of index.html.
  - A partial archive left by a failed `asar pack`.
- The bytes of index.html and real codecs. The document is stored as text, and `Env.decode` says only which encodings raise `UnicodeDecodeError`. The same text is read and written whichever encoding succeeds. The model's text is also the newline-normalised text: `read_text` reads with universal newlines, and `write_text` writes each `\n` as `os.linesep`, so on Windows every newline of a rewritten index.html, including the one after the tag, is stored as `\r\n`.
- Injection.InjectTag: letter case is folded for ASCII only. Python's `str.lower()` also folds non-ASCII letters, and the one length-changing case that matters is under Findings.
- Injection.PyLower: models `str.lower()` only for ASCII letters and U+0130, the characters the counterexample needs; other non-ASCII letters, such as `É`, are left unchanged, so `Injection.PyLowerOfLowerCase` is stated for ASCII text only.
- Versions.ParseVersion: `IGNORECASE` is modelled for ASCII letters and `\d` as ASCII digits only. Python's `re` also matches other Unicode decimal digits.
- The one-second retry when index.html is missing (installer.py:232-238): both checks see the same filesystem, so it is one check here.
- Colour output, `print`, `time.sleep`, the exit prompt and the `colorama` fallback (installer.py:10-25, 400-417): these are presentation and timing only.
- Concurrency with a running Zalo process, e.g. a locked `app.asar`: such a process only shows up as a failing `unlink`, `rmtree` or `asar pack` outcome.

## Findings

| source | as written | input that shows it | evidently intended | confidence | as-written member | corrected member |
|---|---|---|---|---|---|---|
| installer.py:262-274 | the index of the marker is found in `content.lower()` but used to slice `content`; Python lower-cases `İ` (U+0130) to the two characters `i` and U+0307, so every later index is shifted | a document `İ</body>`: `rindex` gives 2, and the tag lands between `<` and `/body>`, destroying the marker (`Injection.DottedCapitalISplitsMarker`) | insert right before the last case-insensitive occurrence of the marker, indexing the original text (proved as `Injection.InsertedBeforeMarker`) | not executed; follows from Python's Unicode lower-casing of U+0130 (SpecialCasing) | Injection.InjectTagAsWritten | Injection.InjectTag |
