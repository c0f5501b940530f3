/** The external commands the monitor runs. Running them is not modelled:
    each run is stood in for by its result, the standard output or the error
    `cmd.Run` reports, supplied from outside. */
module Commands {

  datatype CommandResult = Succeeded(stdout: string) | Failed(err: string)

  /** The listening-socket listing the port list is built from. */
  function ScanCommand(): (argv: seq<string>)
    ensures |argv| == 3 && argv[0] == "lsof"
  {
    ["lsof", "-iTCP", "-sTCP:LISTEN"]
  }

  /** The per-port process lookup run on every selection change. */
  function InspectCommand(port: string): (argv: seq<string>)
    ensures |argv| == 3 && argv[0] == "lsof" && |argv[2]| == |port| + 1 && argv[2][0] == ':' && argv[2][1..] == port
  {
    ["lsof", "-i", ":" + port]
  }

  /** The container lookup, listing stopped containers too. */
  function DockerCommand(port: string): (argv: seq<string>)
    ensures |argv| == 5 && argv[0] == "docker" && |argv[4]| == |port| + 8 && argv[4][..8] == "publish=" && argv[4][8..] == port
  {
    ["docker", "ps", "-a", "--filter", "publish=" + port]
  }

  /** What a pane shows for a lookup: its output, or `Error: ` and the error. */
  function ShownOutput(r: CommandResult): (shown: string)
    ensures r.Succeeded? ==> shown == r.stdout
    ensures r.Failed? ==> |shown| >= 7 && shown[..7] == "Error: " && shown[7..] == r.err
  {
    match r
    case Succeeded(out) => out
    case Failed(err) => "Error: " + err
  }

  /** The command log says which lookup ran for which port: the three
      commands never coincide, and each lookup names its port. */
  lemma CommandsIdentifyPort(p: string, q: string)
    ensures InspectCommand(p) == InspectCommand(q) ==> p == q
    ensures DockerCommand(p) == DockerCommand(q) ==> p == q
    ensures InspectCommand(p) != DockerCommand(q)
    ensures InspectCommand(p) != ScanCommand() && DockerCommand(p) != ScanCommand()
  {
    if InspectCommand(p) == InspectCommand(q) {
      assert InspectCommand(p)[2][1..] == InspectCommand(q)[2][1..];
    }
    if DockerCommand(p) == DockerCommand(q) {
      assert DockerCommand(p)[4][8..] == DockerCommand(q)[4][8..];
    }
    assert |InspectCommand(p)| != |DockerCommand(q)|;
    assert InspectCommand(p)[1] != ScanCommand()[1];
  }
}
