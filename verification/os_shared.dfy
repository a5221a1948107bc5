/** The platform-neutral browser metadata of `src/os/shared.rs`: the
    executable's bitness, its version record, and the argument list a browser
    is launched with. */
module OsShared {

  datatype BinaryType = Bits32 | Bits64 | NoBinaryType

  /** `BinaryType::default()`. */
  function DefaultBinaryType(): (b: BinaryType)
    ensures Display(b) == ""
  {
    NoBinaryType
  }

  /** `impl Display for BinaryType`. */
  function Display(b: BinaryType): (s: string)
    ensures s == "" <==> b == NoBinaryType
    ensures b == Bits32 ==> s == "32 bits"
    ensures b == Bits64 ==> s == "64 bits"
  {
    match b
    case Bits32 => "32 bits"
    case Bits64 => "64 bits"
    case NoBinaryType => ""
  }

  /** Different bitnesses display differently. */
  lemma DisplayInjective(a: BinaryType, b: BinaryType)
    requires Display(a) == Display(b)
    ensures a == b
  {
  }

  /** `VersionInfo`; its `Default` has every text empty and no bitness. */
  datatype VersionInfo = VersionInfo(
    companyName: string,
    fileDescription: string,
    productVersion: string,
    productName: string,
    binaryType: BinaryType)

  function DefaultVersionInfo(): VersionInfo
  {
    VersionInfo("", "", "", "", DefaultBinaryType())
  }

  /** The arguments `spawn_browser_process` passes: the browser's own
      arguments in order, then the URL. */
  function LaunchArgs(args: seq<string>, url: string): (r: seq<string>)
    ensures |r| == |args| + 1 && r[..|args|] == args && r[|args|] == url
  {
    args + [url]
  }

  /** A process `spawn_browser_process` starts: the executable and its
      argument list. */
  datatype Launch = Launch(exePath: string, args: seq<string>)
}
