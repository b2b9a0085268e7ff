/**
 * The FIPS mode-transition state machine of the security manager daemon:
 * the FipsInstaller object, whose state is the in-memory active profile
 * (fipsVersion), the Version and Enabled properties it publishes, and the
 * two host files it manages, /etc/ssl/openssl.cnf and /etc/ssl/fipsmodule.cnf.
 *
 * What the outside world does is passed in: whether the systemd restart of the
 * configuration-installer unit succeeds, whether that unit leaves
 * fipsmodule.cnf behind, how the poll timer ends, and whether each file open
 * or removal succeeds.
 */
module Installer {
  import opened FipsText

  /** The version string meaning "no FIPS provider active". */
  const NotAvailable: string := "na"

  /** The one profile reported whenever the marker block is found on disk. */
  const InstalledProvider: string := "3.0.9"

  /** How the poll timer's wait ends: it fires, it is cancelled, or it reports another error. */
  datatype WaitResult = Expired | Aborted | TimerError

  /** The open modes the configuration file is written with. */
  datatype OpenMode = Append | Truncate

  /** The C++ exceptions that escape DisableFips. */
  datatype Exception =
    | OutOfRange       // std::string::erase at npos
    | FilesystemError  // std::filesystem::remove failing in the operating system

  /** What a call of DisableFips ends with: a returned boolean or a thrown exception. */
  datatype Reply = Returned(ok: bool) | Threw(e: Exception)

  /** The text an append to `file` starts from: its contents, or nothing when it is absent. */
  function ContentsOrEmpty(file: Option<string>): string
  {
    if file.Some? then file.value else ""
  }

  /** The profile the files on disk stand for, as getFIPSProviderInstalled derives it. */
  ghost function DerivedVersion(moduleExists: bool, opensslConf: Option<string>): string
  {
    if moduleExists && opensslConf.Some? && Contains(TrimEnd(opensslConf.value), FipsConfig)
    then InstalledProvider
    else NotAvailable
  }

  /**
   * Once fipsmodule.cnf exists and the marker block has been appended to any
   * text, the files derive the installed provider.
   */
  lemma EnabledFilesDeriveInstalled(c: string)
    ensures DerivedVersion(true, Some(c + FipsConfig)) == InstalledProvider
  {
    AppendedBlockFound(c);
  }

  class FipsInstaller {
    /** The supported profiles, published as AvailableProviders. */
    const availableProvider: seq<string> := ["3.0.9"]

    /** The active profile as the daemon remembers it; "na" when FIPS mode is off. */
    var fipsVersion: string

    /** The published Version and Enabled properties of the status interface. */
    var publishedVersion: string
    var publishedEnabled: bool

    /** Contents of /etc/ssl/openssl.cnf; None when it cannot be opened. */
    var opensslConf: Option<string>

    /** Whether /etc/ssl/fipsmodule.cnf exists. */
    var moduleExists: bool

    /** The published status always shows fipsVersion, and Enabled is Version != "na". */
    ghost predicate Valid()
      reads this
    {
      publishedVersion == fipsVersion && publishedEnabled == (fipsVersion != NotAvailable)
    }

    /** The remembered profile agrees with the one derived from the files. */
    ghost predicate Consistent()
      reads this
    {
      fipsVersion == DerivedVersion(moduleExists, opensslConf)
    }

    /** The trimmed configuration cut at its first start marker, as a disable would write it. */
    ghost function StrippedConfig(): Option<string>
      reads this
    {
      if opensslConf.Some? then CutAtMarker(TrimEnd(opensslConf.value)) else None
    }

    /** A request for `version` passes validation: the profile is supported and not the active one. */
    ghost predicate Admits(version: string)
      reads this
    {
      IsValidVersion(version) && version != fipsVersion
    }

    /**
     * Start-up: the initial profile is derived from the files and published,
     * with Enabled set exactly when it is not "na".
     */
    constructor (conf: Option<string>, moduleFile: bool)
      ensures Valid() && Consistent()
      ensures opensslConf == conf && moduleExists == moduleFile
    {
      opensslConf := conf;
      moduleExists := moduleFile;
      fipsVersion := NotAvailable;
      publishedVersion := NotAvailable;
      publishedEnabled := false;
      new;
      fipsVersion := GetFipsProviderInstalled();
      SetFipsStatus();
    }

    /** Publishes fipsVersion as Version and whether it is not "na" as Enabled. */
    method SetFipsStatus()
      modifies this`publishedVersion, this`publishedEnabled
      ensures Valid()
    {
      publishedVersion := fipsVersion;
      publishedEnabled := !(fipsVersion == NotAvailable);
    }

    /** A requested profile is valid exactly when it is in the supported list, which holds only "3.0.9". */
    function IsValidVersion(version: string): (valid: bool)
      ensures valid <==> version == "3.0.9"
    {
      version in availableProvider
    }

    /**
     * Reads openssl.cnf: fails when the file cannot be opened, and otherwise
     * yields its contents with all trailing whitespace popped off.
     */
    method ReadOpenSslConfig() returns (ok: bool, readBuf: string)
      ensures ok <==> opensslConf.Some?
      ensures ok ==> readBuf == TrimEnd(opensslConf.value)
      ensures !ok ==> readBuf == ""
    {
      if opensslConf.None? {
        return false, "";
      }
      var str := opensslConf.value;
      while str != [] && IsSpace(str[|str| - 1])
        invariant TrimEnd(str) == TrimEnd(opensslConf.value)
        decreases |str|
      {
        str := str[..|str| - 1];
      }
      return true, str;
    }

    /**
     * Writes `writeBuf` to openssl.cnf in the given mode; `isOpen` says
     * whether the output stream opens. An append to an absent file creates it.
     */
    method WriteOpenSslConfig(writeBuf: string, mode: OpenMode, isOpen: bool) returns (ok: bool)
      modifies this`opensslConf
      ensures ok == isOpen
      ensures !ok ==> opensslConf == old(opensslConf)
      ensures ok && mode == Append ==> opensslConf == Some(ContentsOrEmpty(old(opensslConf)) + writeBuf)
      ensures ok && mode == Truncate ==> opensslConf == Some(writeBuf)
    {
      if !isOpen {
        return false;
      }
      if mode == Append {
        opensslConf := Some(ContentsOrEmpty(opensslConf) + writeBuf);
      } else {
        opensslConf := Some(writeBuf);
      }
      return true;
    }

    /**
     * Derives the active profile from the files: "3.0.9" exactly when
     * fipsmodule.cnf exists, openssl.cnf can be read and its trimmed text
     * contains the whole marker block; "na" otherwise.
     */
    method GetFipsProviderInstalled() returns (version: string)
      ensures version == InstalledProvider <==>
        moduleExists && opensslConf.Some? && Contains(TrimEnd(opensslConf.value), FipsConfig)
      ensures version == InstalledProvider || version == NotAvailable
      ensures version == DerivedVersion(moduleExists, opensslConf)
    {
      if !moduleExists {
        return NotAvailable;
      }
      var ok, readBuf := ReadOpenSslConfig();
      if !ok {
        return NotAvailable;
      }
      if Contains(readBuf, FipsConfig) {
        return InstalledProvider;
      }
      return NotAvailable;
    }

    /**
     * EnableFips(version). The inputs stand for the outside world:
     * `restartOk` whether the restart of the installer unit is acknowledged,
     * `moduleRegenerated` whether fipsmodule.cnf exists once that unit has run,
     * `wait` how the poll timer ends, and `appendOpened` whether openssl.cnf
     * opens for appending.
     */
    method EnableFips(version: string, restartOk: bool, moduleRegenerated: bool, wait: WaitResult,
                      appendOpened: bool) returns (ok: bool)
      requires Valid()
      modifies this
      ensures Valid()
      // Validation or the restart request failing changes nothing.
      ensures !old(Admits(version)) || !restartOk ==> !ok && unchanged(this)
      // Once the restart went through, fipsmodule.cnf is whatever the installer unit left.
      ensures old(Admits(version)) && restartOk ==> moduleExists == moduleRegenerated
      ensures ok <==> old(Admits(version)) && restartOk && wait == Expired && moduleRegenerated && appendOpened
      // Every failure leaves the configuration text, the profile and the published status alone.
      ensures !ok ==>
        opensslConf == old(opensslConf) && fipsVersion == old(fipsVersion) &&
        publishedVersion == old(publishedVersion) && publishedEnabled == old(publishedEnabled)
      // Success appends the marker block directly after the old text and publishes the profile,
      // which then agrees with the one derived from the files.
      ensures ok ==>
        opensslConf == Some(ContentsOrEmpty(old(opensslConf)) + FipsConfig) &&
        fipsVersion == version && publishedVersion == version && publishedEnabled && Consistent()
    {
      if !IsValidVersion(version) {
        return false;
      }
      if version == fipsVersion {
        return false;
      }
      // installFIPSConfig: restart of the configuration installer unit
      if !restartOk {
        return false;
      }
      moduleExists := moduleRegenerated;
      // pollTimer.async_wait: cancelled, or any other error code
      if wait != Expired {
        return false;
      }
      if !moduleExists {
        return false;
      }
      ghost var before := ContentsOrEmpty(opensslConf);
      var written := WriteOpenSslConfig(FipsConfig, Append, appendOpened);
      if !written {
        return false;
      }
      EnabledFilesDeriveInstalled(before);
      fipsVersion := version;
      SetFipsStatus();
      return true;
    }

    /**
     * DisableFips(). The inputs stand for the outside world: `truncOpened`
     * whether openssl.cnf opens for truncating, `removeError` whether removing
     * fipsmodule.cnf fails in the operating system.
     */
    method DisableFips(truncOpened: bool, removeError: bool) returns (r: Reply)
      requires Valid()
      modifies this
      ensures Valid()
      // Refused when FIPS mode is off or openssl.cnf cannot be read; nothing changes.
      ensures old(fipsVersion) == NotAvailable ==> r == Returned(false) && unchanged(this)
      ensures old(fipsVersion) != NotAvailable && old(opensslConf).None? ==>
        r == Returned(false) && unchanged(this)
      // No start marker in the text: the erase at npos throws before anything is written.
      ensures old(fipsVersion) != NotAvailable && old(opensslConf).Some? && old(StrippedConfig()).None? ==>
        r == Threw(OutOfRange) && unchanged(this)
      ensures old(fipsVersion) != NotAvailable && old(StrippedConfig()).Some? && !truncOpened ==>
        r == Returned(false) && unchanged(this)
      // After the truncating write the text is cut, whatever happens to fipsmodule.cnf.
      ensures old(fipsVersion) != NotAvailable && old(StrippedConfig()).Some? && truncOpened ==>
        opensslConf == old(StrippedConfig())
      ensures old(fipsVersion) != NotAvailable && old(StrippedConfig()).Some? && truncOpened && removeError ==>
        r == Threw(FilesystemError) && moduleExists == old(moduleExists)
      ensures old(fipsVersion) != NotAvailable && old(StrippedConfig()).Some? && truncOpened && !removeError ==>
        !moduleExists && r == Returned(old(moduleExists))
      // Only full success turns FIPS mode off; every other outcome keeps the remembered profile.
      ensures r == Returned(true) ==> fipsVersion == NotAvailable && !publishedEnabled && Consistent()
      ensures r != Returned(true) ==> fipsVersion == old(fipsVersion) && publishedVersion == old(publishedVersion)
      // A failure after the truncation leaves the profile set while the files derive "na".
      ensures old(fipsVersion) != NotAvailable && old(StrippedConfig()).Some? && truncOpened && r != Returned(true) ==>
        fipsVersion != NotAvailable && DerivedVersion(moduleExists, opensslConf) == NotAvailable
    {
      if fipsVersion == NotAvailable {
        return Returned(false);
      }
      var ok, readBuf := ReadOpenSslConfig();
      if !ok {
        return Returned(false);
      }
      var eraseStart := Find(readBuf, StartMarker);
      if eraseStart.None? {
        return Threw(OutOfRange);
      }
      ghost var trimmed := readBuf;
      readBuf := readBuf[..eraseStart.value];
      assert Some(readBuf) == CutAtMarker(trimmed);
      var written := WriteOpenSslConfig(readBuf, Truncate, truncOpened);
      if !written {
        return Returned(false);
      }
      CutIsFinal(trimmed);
      // std::filesystem::remove: throws on an operating-system error,
      // returns false when the file does not exist
      if removeError {
        return Threw(FilesystemError);
      }
      var removed := moduleExists;
      moduleExists := false;
      if !removed {
        return Returned(false);
      }
      fipsVersion := NotAvailable;
      SetFipsStatus();
      return Returned(true);
    }
  }

  /**
   * Round trip: from FIPS mode off and a configuration with no start marker,
   * a successful enable followed by a successful disable leaves openssl.cnf
   * byte-identical, fipsmodule.cnf gone, and Version "na" with Enabled false.
   */
  method EnableThenDisable(installer: FipsInstaller, c: string)
    requires installer.Valid() && installer.fipsVersion == NotAvailable
    requires installer.opensslConf == Some(c) && !Contains(c, StartMarker)
    modifies installer
    ensures installer.Valid() && installer.Consistent()
    ensures installer.opensslConf == Some(c) && !installer.moduleExists
    ensures installer.publishedVersion == NotAvailable && !installer.publishedEnabled
  {
    var enabled := installer.EnableFips("3.0.9", true, true, Expired, true);
    assert enabled && installer.opensslConf == Some(c + FipsConfig);
    AppendThenCut(c);
    var disabled := installer.DisableFips(true, false);
    assert disabled == Returned(true);
  }

  /**
   * A disable whose removal of fipsmodule.cnf fails after the truncating write
   * leaves the daemon unable to leave FIPS mode: a second disable finds no
   * start marker and throws, and enabling the same profile is refused.
   */
  method DisableAfterPartialFailure(installer: FipsInstaller)
    returns (first: Reply, retry: Reply, reenabled: bool)
    requires installer.Valid() && installer.fipsVersion == InstalledProvider
    requires installer.StrippedConfig().Some?
    modifies installer
    ensures first == Threw(FilesystemError) && retry == Threw(OutOfRange) && !reenabled
    ensures installer.Valid() && installer.fipsVersion == InstalledProvider && installer.publishedEnabled
    ensures !installer.Consistent()
  {
    ghost var text := TrimEnd(installer.opensslConf.value);
    first := installer.DisableFips(true, true);
    CutIsFinal(text);
    retry := installer.DisableFips(true, false);
    reenabled := installer.EnableFips(InstalledProvider, true, true, Expired, true);
  }
}
