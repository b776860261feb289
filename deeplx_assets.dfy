/**
 * Choosing the DeepLX server binary to download: the release asset for the operating system and
 * machine the editor runs on, the name of the executable to store it as, and the download URL
 * found among the assets of the latest release.
 */
module DeepLXAssets {
  import opened Wrappers
  import opened Text

  /** The release asset to fetch and the file name it is saved under. */
  datatype Asset = Asset(assetName: string, exeName: string)

  /** The processor families DeepLX publishes binaries for. */
  datatype Arch = Amd64 | I386 | Arm64

  function ArchTag(a: Arch): string {
    match a
    case Amd64 => "amd64"
    case I386 => "386"
    case Arm64 => "arm64"
  }

  /**
   * The asset-selection branches of `download_deeplx`. `system` is `platform.system()` and
   * `machine` is `platform.machine()`, which the source lower-cases before testing substrings.
   * None is the "not supported" warning, after which nothing is downloaded.
   */
  function SelectAsset(system: string, machine: string): Option<Asset> {
    var m := Lower(machine);
    if system == "Windows" then
      if Contains(m, "amd64") || Contains(m, "x86_64") then Some(Asset("deeplx_windows_amd64.exe", "deeplx.exe"))
      else if Contains(m, "386") || Contains(m, "x86") then Some(Asset("deeplx_windows_386.exe", "deeplx.exe"))
      else None
    else if system == "Linux" then
      if Contains(m, "amd64") || Contains(m, "x86_64") then Some(Asset("deeplx_linux_amd64", "deeplx"))
      else if Contains(m, "arm64") || Contains(m, "aarch64") then Some(Asset("deeplx_linux_arm64", "deeplx"))
      else if Contains(m, "386") || Contains(m, "i686") then Some(Asset("deeplx_linux_386", "deeplx"))
      else None
    else if system == "Darwin" then
      if Contains(m, "arm") || Contains(m, "aarch64") then Some(Asset("deeplx_darwin_arm64", "deeplx"))
      else Some(Asset("deeplx_darwin_amd64", "deeplx"))
    else None
  }

  /**
   * An independent statement of the table: which architecture each supported platform gets,
   * from the lower-cased machine name.
   */
  function ArchFor(system: string, m: string): Option<Arch> {
    var x64 := Contains(m, "amd64") || Contains(m, "x86_64");
    if system == "Windows" then
      if x64 then Some(Amd64) else if Contains(m, "386") || Contains(m, "x86") then Some(I386) else None
    else if system == "Linux" then
      if x64 then Some(Amd64)
      else if Contains(m, "arm64") || Contains(m, "aarch64") then Some(Arm64)
      else if Contains(m, "386") || Contains(m, "i686") then Some(I386)
      else None
    else if system == "Darwin" then
      Some(if Contains(m, "arm") || Contains(m, "aarch64") then Arm64 else Amd64)
    else None
  }

  /** The release's naming scheme: `deeplx_<os>_<arch>`, with `.exe` on Windows. */
  function AssetNamed(system: string, a: Arch): Asset
    requires system in {"Windows", "Linux", "Darwin"}
  {
    var os := if system == "Windows" then "windows" else if system == "Linux" then "linux" else "darwin";
    var ext := if system == "Windows" then ".exe" else "";
    Asset("deeplx_" + os + "_" + ArchTag(a) + ext, "deeplx" + ext)
  }

  /**
   * The branches follow the naming scheme: an asset is chosen exactly when the platform has an
   * architecture, and it is the scheme's name for that platform and architecture.
   */
  lemma SelectAssetFollowsScheme(system: string, machine: string)
    ensures SelectAsset(system, machine).Some? <==> ArchFor(system, Lower(machine)).Some?
    ensures SelectAsset(system, machine).Some? ==>
      system in {"Windows", "Linux", "Darwin"} &&
      SelectAsset(system, machine).value == AssetNamed(system, ArchFor(system, Lower(machine)).value)
  {
    SchemeNames();
    if system == "Windows" {
    } else if system == "Linux" {
    } else if system == "Darwin" {
    }
  }

  /** The scheme's names for the seven builds the editor knows. */
  lemma SchemeNames()
    ensures AssetNamed("Windows", Amd64) == Asset("deeplx_windows_amd64.exe", "deeplx.exe")
    ensures AssetNamed("Windows", I386) == Asset("deeplx_windows_386.exe", "deeplx.exe")
    ensures AssetNamed("Linux", Amd64) == Asset("deeplx_linux_amd64", "deeplx")
    ensures AssetNamed("Linux", Arm64) == Asset("deeplx_linux_arm64", "deeplx")
    ensures AssetNamed("Linux", I386) == Asset("deeplx_linux_386", "deeplx")
    ensures AssetNamed("Darwin", Arm64) == Asset("deeplx_darwin_arm64", "deeplx")
    ensures AssetNamed("Darwin", Amd64) == Asset("deeplx_darwin_amd64", "deeplx")
  {
    WindowsNames();
    LinuxNames();
    DarwinNames();
  }

  lemma WindowsNames()
    ensures AssetNamed("Windows", Amd64) == Asset("deeplx_windows_amd64.exe", "deeplx.exe")
    ensures AssetNamed("Windows", I386) == Asset("deeplx_windows_386.exe", "deeplx.exe")
  {
    assert "deeplx" + ".exe" == "deeplx.exe";
    assert "deeplx_" + "windows" + "_" + "amd64" + ".exe" == "deeplx_windows_amd64.exe";
    assert "deeplx_" + "windows" + "_" + "386" + ".exe" == "deeplx_windows_386.exe";
  }

  lemma LinuxNames()
    ensures AssetNamed("Linux", Amd64) == Asset("deeplx_linux_amd64", "deeplx")
    ensures AssetNamed("Linux", Arm64) == Asset("deeplx_linux_arm64", "deeplx")
    ensures AssetNamed("Linux", I386) == Asset("deeplx_linux_386", "deeplx")
  {
    assert "deeplx" + "" == "deeplx";
    assert "deeplx_" + "linux" + "_" + "amd64" + "" == "deeplx_linux_amd64";
    assert "deeplx_" + "linux" + "_" + "arm64" + "" == "deeplx_linux_arm64";
    assert "deeplx_" + "linux" + "_" + "386" + "" == "deeplx_linux_386";
  }

  lemma DarwinNames()
    ensures AssetNamed("Darwin", Arm64) == Asset("deeplx_darwin_arm64", "deeplx")
    ensures AssetNamed("Darwin", Amd64) == Asset("deeplx_darwin_amd64", "deeplx")
  {
    assert "deeplx" + "" == "deeplx";
    assert "deeplx_" + "darwin" + "_" + "arm64" + "" == "deeplx_darwin_arm64";
    assert "deeplx_" + "darwin" + "_" + "amd64" + "" == "deeplx_darwin_amd64";
  }

  /** Which platforms are supported: every macOS machine, and Windows and Linux only for known machines. */
  lemma SupportedPlatforms(system: string, machine: string)
    ensures var m := Lower(machine);
      SelectAsset(system, machine).Some? <==>
        || system == "Darwin"
        || (system == "Windows" && (Contains(m, "amd64") || Contains(m, "x86_64") || Contains(m, "386") || Contains(m, "x86")))
        || (system == "Linux" && (Contains(m, "amd64") || Contains(m, "x86_64") || Contains(m, "arm64")
                                  || Contains(m, "aarch64") || Contains(m, "386") || Contains(m, "i686")))
  {
  }

  /** The saved executable is `deeplx.exe` on Windows and `deeplx` elsewhere; Windows never gets an ARM build. */
  lemma ExecutableNames(system: string, machine: string)
    requires SelectAsset(system, machine).Some?
    ensures SelectAsset(system, machine).value.exeName == if system == "Windows" then "deeplx.exe" else "deeplx"
    ensures system == "Windows" ==> ArchFor(system, Lower(machine)) != Some(Arm64)
  {
  }

  /** The machine name is compared without regard to case. */
  lemma SelectAssetIgnoresCase(system: string, machine: string)
    ensures SelectAsset(system, Lower(machine)) == SelectAsset(system, machine)
  {
    LowerIdempotent(machine);
  }

  /**
   * A Windows machine whose name contains `x86_64` gets the 64-bit build even though the name
   * also contains `x86`: the 64-bit test comes first. `x86_64` itself is such a machine.
   */
  lemma WindowsX64BeforeX86(machine: string)
    requires Contains(Lower(machine), "x86_64")
    ensures SelectAsset("Windows", machine) == Some(Asset("deeplx_windows_amd64.exe", "deeplx.exe"))
    ensures SelectAsset("Windows", "x86_64") == Some(Asset("deeplx_windows_amd64.exe", "deeplx.exe"))
  {
    assert Lower("x86_64") == "x86_64";
    StartsWithContains("x86_64", "x86_64");
  }

  /** Any operating system other than Windows, Linux and macOS is unsupported, whatever the machine. */
  lemma OtherSystemsUnsupported(system: string, machine: string)
    requires system !in {"Windows", "Linux", "Darwin"}
    ensures SelectAsset(system, machine) == None
  {
  }

  /** One entry of the release's `assets` list: its `name` and `browser_download_url`, either of which may be absent. */
  datatype ReleaseAsset = ReleaseAsset(name: Option<string>, url: Option<string>)

  /** The URL of the first asset called `name`; None when there is no such asset or it has no URL. */
  function FirstUrl(assets: seq<ReleaseAsset>, name: string): Option<string>
    decreases |assets|
  {
    if assets == [] then None
    else if assets[0].name == Some(name) then assets[0].url
    else FirstUrl(assets[1..], name)
  }

  /**
   * The lookup loop of `download_deeplx`: stop at the first asset with the wanted name and take
   * its URL, which may be missing.
   */
  method FindDownloadUrl(assets: seq<ReleaseAsset>, name: string) returns (url: Option<string>)
    ensures url == FirstUrl(assets, name)
  {
    url := None;
    var i := 0;
    while i < |assets|
      invariant 0 <= i <= |assets|
      invariant FirstUrl(assets[i..], name) == FirstUrl(assets, name)
    {
      assert assets[i..][1..] == assets[i + 1..];
      if assets[i].name == Some(name) {
        url := assets[i].url;
        return;
      }
      i := i + 1;
    }
  }

  /** The lookup finds the first asset of that name, and nothing when no asset has it. */
  lemma {:induction false} FirstUrlIsFirstMatch(assets: seq<ReleaseAsset>, name: string)
    ensures (forall i :: 0 <= i < |assets| ==> assets[i].name != Some(name)) ==> FirstUrl(assets, name) == None
    ensures forall i ::
              (0 <= i < |assets| && assets[i].name == Some(name) && forall j :: 0 <= j < i ==> assets[j].name != Some(name))
              ==> FirstUrl(assets, name) == assets[i].url
    decreases |assets|
  {
    if assets != [] {
      FirstUrlIsFirstMatch(assets[1..], name);
      forall i | 0 < i < |assets| ensures assets[1..][i - 1] == assets[i] { }
    }
  }

  /** What `download_deeplx` goes on to do once the release request has been answered. */
  datatype Plan = FetchFailed | Unsupported | NotFound(assetName: string) | Download(url: string, exeName: string)

  /**
   * The decision of `download_deeplx`. `release` is the `assets` list of the latest release, or
   * None when the release request raised (a network error, an HTTP error status, a body that is
   * not JSON); that is reported before the platform is looked at. Then: an unsupported platform,
   * an asset missing from the release (no URL, or an empty one), or a download.
   */
  function PlanDownload(system: string, machine: string, release: Option<seq<ReleaseAsset>>): (p: Plan)
    ensures p.FetchFailed? <==> release.None?
    ensures p.Unsupported? <==> release.Some? && SelectAsset(system, machine).None?
    ensures p.NotFound? <==>
      && release.Some? && SelectAsset(system, machine).Some?
      && var url := FirstUrl(release.value, SelectAsset(system, machine).value.assetName);
         url.None? || url.value == ""
    ensures p.Download? <==>
      && release.Some? && SelectAsset(system, machine).Some?
      && var url := FirstUrl(release.value, SelectAsset(system, machine).value.assetName);
         url.Some? && url.value != ""
    ensures p.NotFound? ==> p.assetName == SelectAsset(system, machine).value.assetName
  {
    match release
    case None => FetchFailed
    case Some(assets) =>
      match SelectAsset(system, machine)
      case None => Unsupported
      case Some(asset) =>
        var url := FirstUrl(assets, asset.assetName);
        if url.None? || url.value == "" then NotFound(asset.assetName)
        else Download(url.value, asset.exeName)
  }

  /** A download always fetches the URL listed for the chosen asset and saves it under that asset's executable name. */
  lemma DownloadUsesChosenAsset(system: string, machine: string, release: Option<seq<ReleaseAsset>>)
    requires PlanDownload(system, machine, release).Download?
    ensures var a := SelectAsset(system, machine).value;
      FirstUrl(release.value, a.assetName) == Some(PlanDownload(system, machine, release).url) &&
      PlanDownload(system, machine, release).exeName == a.exeName
  {
  }
}
