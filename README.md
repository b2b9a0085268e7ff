# FIPS mode installer — Dafny model

This project models the FIPS mode-transition state machine of the security
manager daemon (`FIPSInstaller`). The daemon switches the host's OpenSSL
between standard mode and FIPS mode. Enabling restarts the
`com.intel.FipsConfigInstaller.service` unit, which produces
`/etc/ssl/fipsmodule.cnf`. The daemon then appends a fixed marker block to
`/etc/ssl/openssl.cnf`. Disabling cuts `openssl.cnf` at the first
`#FIPS_CONFIG_START` and deletes `fipsmodule.cnf`. The daemon remembers the
active profile in `fipsVersion` and publishes it as the `Version` and
`Enabled` properties.

The model has two modules:

- `FipsText` (`fips_text.dfy`) is the pure string logic. It holds the marker
  block `FipsConfig`, the trailing-whitespace trim done on every read
  (`TrimEnd`), `std::string::find` (`FindFrom`, `Find`, `Contains`) and the
  erase at the first start marker (`CutAtMarker`). It also holds the text
  lemmas: the round trip (`AppendThenCut`) and what is left after a cut
  (`CutIsFinal`).
- `Installer` (`installer.dfy`) is the class `FipsInstaller`. Its fields are
  `fipsVersion`, the published `Version`/`Enabled`, the contents of
  `openssl.cnf` (`None` when it cannot be opened) and whether `fipsmodule.cnf`
  exists. `EnableFips` and `DisableFips` change them step by step, following
  the same early returns as the source. `Valid()` is the class invariant: the
  published Version is `fipsVersion`, and Enabled is `Version != "na"`.
  `Consistent()` says that `fipsVersion` agrees with the version derived from
  the files.

The outside world is modelled as method inputs:

- whether the restart request is acknowledged (`restartOk`);
- whether `fipsmodule.cnf` exists once the restarted unit has run
  (`moduleRegenerated`);
- how the poll timer ends (`WaitResult`);
- whether each file opens;
- whether the removal of `fipsmodule.cnf` fails in the operating system.

`DisableFips` returns a `Reply`, because two C++ exceptions can escape it:

- `std::out_of_range` comes from `erase(npos, …)` when no start marker is
  present;
- `std::filesystem::filesystem_error` comes from `std::filesystem::remove`.

Two behaviours of the code are worth knowing:

- The code has no guard against two `EnableFips` calls interleaving at the
  timer wait (src/fips-installer.cpp:219-220).
- If removing `fipsmodule.cnf` fails after the truncating write
  (src/fips-installer.cpp:187-195), the code does not recompute the status.
  `fipsVersion` stays set while the files derive `"na"`. After that, a second
  disable throws `std::out_of_range`, and re-enabling the same profile is
  refused as "already active". `DisableAfterPartialFailure` proves this
  sequence.

## Model

| member | source | states |
|---|---|---|
| `FipsText.TrimEnd` | src/fips-installer.cpp:147-152 | the trimmed text is a prefix of the raw contents, is empty or ends in a non-space character, and everything removed is whitespace (C-locale `isspace`) |
| `FipsText.TrimEndUnique` | src/fips-installer.cpp:147-152 | those three properties determine the result: the trim removes exactly the trailing whitespace and nothing else |
| `FipsText.FindFrom` | src/fips-installer.cpp:183 | `find` returns the first index at or after the start where the pattern occurs, or npos (None) when it occurs nowhere after the start |
| `FipsText.Find` | src/fips-installer.cpp:183 | `find(pat)` from the start: None (npos) exactly when the pattern occurs nowhere, otherwise an index where it occurs with no occurrence before it |
| `FipsText.Contains` | src/fips-installer.cpp:262 | `find(pat) != npos` holds exactly when the pattern occurs somewhere in the text |
| `FipsText.FindIsFirst` | src/fips-installer.cpp:183 | an occurrence with no occurrence before it is exactly what `find` returns |
| `FipsText.CutAtMarker` | src/fips-installer.cpp:183-185 | the erase keeps the text before the first `#FIPS_CONFIG_START`; the start marker is found at the cut and nowhere in what is kept; None, which stands for the `out_of_range` throw, exactly when the marker is absent |
| `FipsText.FipsConfigShape` | src/fips-installer.cpp:38-50 | the marker block begins with the 18-character start marker, ends in a non-space character, and the start marker has `#` only as its first character |
| `FipsText.BlockStartsWithMarker` | src/fips-installer.cpp:38-50 | wherever the whole marker block occurs, the start marker occurs at the same place |
| `FipsText.NoMarkerAfterTrim` | src/fips-installer.cpp:147-152 | trimming a text with no start marker cannot create one |
| `FipsText.AppendedBlockFound` | src/fips-installer.cpp:236 | after the block is appended to any text, the read-time trim keeps the text whole and the block is found in it |
| `FipsText.MarkerAtJoin` | src/fips-installer.cpp:183 | in `c + fipsConfig`, where `c` has no start marker, the first start marker is exactly at the join; it cannot straddle it |
| `FipsText.AppendThenCut` | src/fips-installer.cpp:183-187 | append, trimmed read and cut give back the original configuration byte for byte when it had no start marker |
| `FipsText.CutIsFinal` | src/fips-installer.cpp:183-187 | after the cut and a trim, the text holds neither the start marker (so a second cut throws) nor the marker block (so the derived status is "na") |
| `Installer.EnabledFilesDeriveInstalled` | src/fips-installer.cpp:253-266 | with the module file present and the block appended to any text, the derived provider is "3.0.9" |
| `Installer.FipsInstaller.constructor` | src/fips-installer.cpp:92-101 | at start-up `fipsVersion` is the version derived from the files; it is published as Version, and Enabled is set exactly when it is not "na" |
| `Installer.FipsInstaller.SetFipsStatus` | src/fips-installer.cpp:126-131 | publishes Version = `fipsVersion` and Enabled = `fipsVersion != "na"` |
| `Installer.FipsInstaller.IsValidVersion` | src/fips-installer.cpp:133-137 | a version is valid exactly when it is "3.0.9", the only entry of the supported-provider list |
| `Installer.FipsInstaller.ReadOpenSslConfig` | src/fips-installer.cpp:139-155 | succeeds exactly when openssl.cnf can be opened, and then returns its contents with the trailing whitespace trimmed |
| `Installer.FipsInstaller.WriteOpenSslConfig` | src/fips-installer.cpp:157-168 | fails and changes nothing when the stream does not open; an append puts the buffer after the old contents, and a truncating write replaces them |
| `Installer.FipsInstaller.GetFipsProviderInstalled` | src/fips-installer.cpp:246-268 | "3.0.9" exactly when fipsmodule.cnf exists, openssl.cnf is readable and its trimmed text contains the whole marker block; "na" otherwise |
| `Installer.FipsInstaller.EnableFips` | src/fips-installer.cpp:201-244 | an unsupported or already active version, or a failed restart, returns false and changes nothing. Success needs the restart, a normal timer expiry, the module file and an opened append. Every failure keeps the config text, `fipsVersion` and the status. Success appends the block right after the old text, sets and publishes the version, and leaves it consistent with the files |
| `Installer.FipsInstaller.DisableFips` | src/fips-installer.cpp:170-199 | refused with no change when the version is "na" or the config cannot be read. No start marker throws `out_of_range` with no change. An unopened truncation returns false with no change. After the truncation the config is the trimmed text cut at the marker. A removal error throws, and a missing module file returns false. Only full success sets "na", publishes Enabled = false and removes the module file. Partial failures keep `fipsVersion` while the files derive "na" |
| `Installer.EnableThenDisable` | src/fips-installer.cpp:170-244 | from FIPS off with a start-marker-free config, a successful enable followed by a successful disable leaves openssl.cnf byte-identical, fipsmodule.cnf absent, and Version "na" with Enabled false |
| `Installer.DisableAfterPartialFailure` | src/fips-installer.cpp:170-213 | after a disable whose module removal fails, a retried disable throws `out_of_range` and re-enabling "3.0.9" is refused, while the published status still says enabled and disagrees with the files |

## Left out

- D-Bus plumbing is not modelled. This covers interface registration and the
  AvailableProviders property (src/fips-installer.cpp:52-64 and 103-123) and
  method marshalling. Only the initial status computation is kept, in the
  constructor.
- installFIPSConfig (src/fips-installer.cpp:66-90) builds the systemd
  `RestartUnit` message and parses the reply. This foreign call is reduced to
  the boolean input `restartOk`.
- The steady timer, its 2-second `pollInterval` and the coroutine suspension
  are not modelled. Only how the wait ends is modelled (`WaitResult`), with no
  notion of time.
- Concurrency is not modelled. Two `EnableFips` calls can interleave at the
  timer wait, because the code has no guard. The model runs one call at a
  time and claims no mutual exclusion. There is only one `pollTimer`, and
  `expires_after` re-arms it (src/fips-installer.cpp:219). Re-arming cancels
  a wait that is already pending. So when two calls overlap, the earlier one
  normally resumes with `operation_aborted` and returns false
  (src/fips-installer.cpp:221-224). Only the later call goes on to append.
- Logging to `std::cerr`/`std::cout` is not modelled.
- Real file I/O is reduced to abstract state. An `openssl.cnf` that cannot be
  opened for reading is modelled as absent, so a successful append creates
  it. The contents of `fipsmodule.cnf` are not modelled; only its existence
  is.
- The restarted unit's effect on `fipsmodule.cnf` is applied as soon as the
  restart is acknowledged. What the unit does after a failed restart request
  is not modelled.
- `std::filesystem::exists` can throw on an operating-system error. The model
  treats it as a plain boolean query.
- Characters are Dafny `char` values rather than C++ `char` bytes. `isspace`
  is the "C"-locale set (space and `\t` through `\r`). The undefined
  behaviour of `isspace` on negative `char` values is not modelled.
- Installer.FipsInstaller.WriteOpenSslConfig: the model assumes a write to a
  stream that opened always completes. The source never checks the stream
  after `fp << writeBuf` (src/fips-installer.cpp:165-167), so a short or
  failed write still returns true and leaves the file partly written. After
  such a truncating write, disable would still remove the module file and
  report success over a partial `openssl.cnf`. The round trip and "the block
  is found after enable" rely on this assumption.
- Installer.FipsInstaller.ReadOpenSslConfig: on failure it returns an empty
  buffer, whereas the source leaves the caller's buffer untouched. Every
  caller passes an empty buffer and ignores it on failure.
