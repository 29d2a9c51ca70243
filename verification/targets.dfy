/**
 * The two boards the benchmark runner drives (examples/tools/runbench/src/target/):
 * the QEMU emulation of the MPS2+ AN505 and the LPC55S69 development board
 * reached through PyOCD, and the choice of the serial port the board's output
 * is read from. Commands are argument lists; their outcomes are parameters.
 */
module Targets {
  import opened Wrappers
  import opened Strings

  // ---------------------------------------------------------------------------
  // Serial port selection (target.rs)

  datatype SerialError = NoPortsAvailable | MultiplePortsAvailable(names: seq<string>) | SystemError(message: string)

  /**
   * `choose_serial`: the port named on the command line if there is one;
   * otherwise the only port the system lists, and an error naming all of them
   * when there is not exactly one.
   */
  function ChooseSerial(explicit: Option<string>, ports: Result<seq<string>, string>): (r: Result<string, SerialError>)
    ensures r.Ok? <==> explicit.Some? || (ports.Ok? && |ports.value| == 1)
    ensures r.Ok? ==> (explicit.Some? && r.value == explicit.value) || (explicit.None? && r.value in ports.value)
    ensures r == Err(NoPortsAvailable) <==> explicit.None? && ports == Ok([])
    ensures r.Err? && r.error.MultiplePortsAvailable? ==> explicit.None? && ports.Ok? && r.error.names == ports.value
  {
    match explicit
    case Some(p) => Ok(p)
    case None =>
      match ports
      case Err(e) => Err(SystemError(e))
      case Ok(ps) =>
        if |ps| == 0 then Err(NoPortsAvailable)
        else if |ps| > 1 then Err(MultiplePortsAvailable(ps))
        else Ok(ps[0])
  }

  // ---------------------------------------------------------------------------
  // QEMU (qemu.rs)

  datatype Qemu = Qemu(cmd: string, images: seq<string>)

  const QemuBuildFlags: seq<string> := ["-Dtarget-board=an505"]

  /** `program` only remembers the images; loading happens at launch. */
  function QemuProgram(q: Qemu, paths: seq<string>): (r: (Qemu, Result<(), string>))
    ensures r.0.images == paths && r.0.cmd == q.cmd && r.1.Ok?
  {
    (q.(images := paths), Ok(()))
  }

  /** The fixed part of the launch command: the machine, no display, semihosting. */
  const QemuOptions: seq<string> :=
    ["-machine", "mps2-an505", "-nographic", "-d", "guest_errors",
     "-semihosting", "-semihosting-config", "target=native", "-kernel"]

  const LoaderPrefix: string := "loader,file="

  function LoaderArgs(images: seq<string>): (r: seq<string>)
    ensures |r| == 2 * |images|
    ensures forall k :: 0 <= k < |images| ==> r[2 * k] == "-device" && r[2 * k + 1] == LoaderPrefix + images[k]
  {
    if |images| == 0 then []
    else
      var rest := LoaderArgs(images[1..]);
      var r := ["-device", LoaderPrefix + images[0]] + rest;
      assert forall k :: 0 <= k < |images| ==> r[2 * k] == "-device" && r[2 * k + 1] == LoaderPrefix + images[k] by {
        forall k | 0 <= k < |images|
          ensures r[2 * k] == "-device" && r[2 * k + 1] == LoaderPrefix + images[k]
        {
          if k > 0 {
            assert r[2 * k] == rest[2 * (k - 1)] && r[2 * k + 1] == rest[2 * (k - 1) + 1];
            assert images[k] == images[1..][k - 1];
          }
        }
      }
      r
  }

  /**
   * `reset_and_get_output`'s command line: the first image is the kernel and
   * every further image is loaded by a generic loader device. With no image
   * programmed the source indexes out of bounds; that is `None` here.
   */
  function QemuCommand(q: Qemu): (r: Option<seq<string>>)
    ensures r.Some? <==> |q.images| > 0
    ensures r.Some? ==> (|r.value| == 11 + 2 * (|q.images| - 1) && r.value[0] == q.cmd
      && r.value[1..10] == QemuOptions && r.value[10] == q.images[0])
  {
    if |q.images| == 0 then None
    else Some([q.cmd] + QemuOptions + [q.images[0]] + LoaderArgs(q.images[1..]))
  }

  /** The images a QEMU command line loads, kernel first. */
  function LaunchedImages(args: seq<string>): Option<seq<string>> {
    if |args| < 11 || args[1..10] != QemuOptions then None
    else
      match LoadedImages(args[11..])
      case None => None
      case Some(rest) => Some([args[10]] + rest)
  }

  function LoadedImages(args: seq<string>): Option<seq<string>> {
    if |args| == 0 then Some([])
    else if |args| == 1 || args[0] != "-device" then None
    else
      match StripPrefix(args[1], LoaderPrefix)
      case None => None
      case Some(image) =>
        match LoadedImages(args[2..])
        case None => None
        case Some(rest) => Some([image] + rest)
  }

  lemma {:induction false} LoadedImagesOfLoaderArgs(images: seq<string>)
    ensures LoadedImages(LoaderArgs(images)) == Some(images)
  {
    if |images| > 0 {
      var rest := LoaderArgs(images[1..]);
      var args := ["-device", LoaderPrefix + images[0]] + rest;
      assert LoaderArgs(images) == args;
      assert args[2..] == rest;
      StripPrefixConcat(LoaderPrefix, images[0]);
      LoadedImagesOfLoaderArgs(images[1..]);
      assert LoadedImages(args) == Some([images[0]] + images[1..]);
      assert [images[0]] + images[1..] == images;
    }
  }

  /** Programming then launching loads exactly the programmed images, in order. */
  lemma QemuLaunchesProgrammedImages(q: Qemu, paths: seq<string>)
    requires |paths| > 0
    ensures var p := QemuProgram(q, paths).0;
            QemuCommand(p).Some? && LaunchedImages(QemuCommand(p).value) == Some(paths)
  {
    var p := QemuProgram(q, paths).0;
    var args := QemuCommand(p).value;
    assert args[11..] == LoaderArgs(paths[1..]);
    assert args[1..10] == QemuOptions;
    LoadedImagesOfLoaderArgs(paths[1..]);
    assert [paths[0]] + paths[1..] == paths;
  }

  // ---------------------------------------------------------------------------
  // LPC55S69 (lpc55s69.rs)

  datatype Lpc = Lpc(pyocd: string, uid: Option<string>, serialPort: string)

  const LpcBuildFlags: seq<string> := ["-Dtarget-board=lpc55s69"]

  /** `pyocd_uid_args`: the probe selection, when a probe was named. */
  function UidArgs(l: Lpc): (r: seq<string>)
    ensures l.uid.Some? ==> r == ["--uid", l.uid.value]
    ensures l.uid.None? ==> r == []
  {
    match l.uid
    case Some(u) => ["--uid", u]
    case None => []
  }

  function FlashCommand(l: Lpc, path: string): seq<string> {
    [l.pyocd, "flash", "-t", "lpc55s69"] + UidArgs(l) + ["--format", "elf", path]
  }

  function PyocdCommand(l: Lpc, command: string): seq<string> {
    [l.pyocd, "cmd", "-t", "lpc55s69"] + UidArgs(l) + ["-c", command]
  }

  /** The steps the board driver takes, in the order it takes them. */
  datatype Action = RunCommand(args: seq<string>) | OpenSerial(port: string, baud: nat)

  datatype LpcError =
    | PathError(path: string, message: string)
    | ProgramError(message: string)
    | HaltError(message: string)
    | SerialError(message: string)
    | ResetError(message: string)

  /** The outcome of each outside request. */
  datatype Board = Board(
    canonicalize: string -> Result<string, string>,
    run: seq<string> -> Result<(), string>,
    open: string -> Result<(), string>)

  /**
   * `program`: each image in turn is resolved to an absolute path and flashed;
   * the first failure stops the loop. Returns the commands run and the outcome.
   */
  function LpcProgram(l: Lpc, b: Board, paths: seq<string>): (r: (seq<Action>, Result<(), LpcError>))
    ensures r.1.Ok? ==> |r.0| == |paths| && forall k :: 0 <= k < |paths| ==>
      b.canonicalize(paths[k]).Ok? && r.0[k] == RunCommand(FlashCommand(l, b.canonicalize(paths[k]).value))
    ensures r.1.Ok? <==> forall k :: 0 <= k < |paths| ==>
      b.canonicalize(paths[k]).Ok? && b.run(FlashCommand(l, b.canonicalize(paths[k]).value)).Ok?
    ensures |r.0| <= |paths|
  {
    if |paths| == 0 then ([], Ok(()))
    else
      match b.canonicalize(paths[0])
      case Err(e) => ([], Err(PathError(paths[0], e)))
      case Ok(abs) =>
        var cmd := FlashCommand(l, abs);
        match b.run(cmd)
        case Err(e) => ([RunCommand(cmd)], Err(ProgramError(e)))
        case Ok(_) =>
          var rest := LpcProgram(l, b, paths[1..]);
          assert forall k :: 1 <= k < |paths| ==> paths[k] == paths[1..][k - 1];
          ([RunCommand(cmd)] + rest.0, rest.1)
  }

  const BaudRate: nat := 115200

  /** The full sequence of steps of a reset: halt, open the serial port, reset. */
  function ResetSteps(l: Lpc): seq<Action> {
    [RunCommand(PyocdCommand(l, "halt")), OpenSerial(l.serialPort, BaudRate), RunCommand(PyocdCommand(l, "reset"))]
  }

  /**
   * `reset_and_get_output`: the board is halted before the serial port is
   * opened, and reset only once the port is open, so no output is lost. The
   * steps taken are always a prefix of that order, and all of them on success;
   * the first step that fails decides the error: halt, serial or reset.
   */
  function LpcReset(l: Lpc, b: Board): (r: (seq<Action>, Result<(), LpcError>))
    ensures r.0 <= ResetSteps(l) && |r.0| >= 1
    ensures r.1.Ok? <==> r.0 == ResetSteps(l) && b.run(PyocdCommand(l, "reset")).Ok?
    ensures r.1.Ok? <==> b.run(PyocdCommand(l, "halt")).Ok? && b.open(l.serialPort).Ok?
                          && b.run(PyocdCommand(l, "reset")).Ok?
    ensures RunCommand(PyocdCommand(l, "reset")) in r.0 ==> b.run(PyocdCommand(l, "halt")).Ok? && b.open(l.serialPort).Ok?
    ensures OpenSerial(l.serialPort, BaudRate) in r.0 ==> b.run(PyocdCommand(l, "halt")).Ok?
    ensures b.run(PyocdCommand(l, "halt")).Err? ==> r.1 == Err(HaltError(b.run(PyocdCommand(l, "halt")).error))
    ensures b.run(PyocdCommand(l, "halt")).Ok? && b.open(l.serialPort).Err? ==>
              r.1 == Err(SerialError(b.open(l.serialPort).error))
    ensures b.run(PyocdCommand(l, "halt")).Ok? && b.open(l.serialPort).Ok? && b.run(PyocdCommand(l, "reset")).Err? ==>
              r.1 == Err(ResetError(b.run(PyocdCommand(l, "reset")).error))
  {
    var halt := PyocdCommand(l, "halt");
    var reset := PyocdCommand(l, "reset");
    assert halt[|halt| - 1] != reset[|reset| - 1];
    if b.run(halt).Err? then ([RunCommand(halt)], Err(HaltError(b.run(halt).error)))
    else if b.open(l.serialPort).Err? then
      ([RunCommand(halt), OpenSerial(l.serialPort, BaudRate)], Err(SerialError(b.open(l.serialPort).error)))
    else if b.run(reset).Err? then (ResetSteps(l), Err(ResetError(b.run(reset).error)))
    else (ResetSteps(l), Ok(()))
  }

  /** The probe selection sits at the same place in every PyOCD command. */
  lemma UidPlacement(l: Lpc, path: string, command: string)
    ensures FlashCommand(l, path)[4..4 + |UidArgs(l)|] == UidArgs(l)
    ensures PyocdCommand(l, command)[4..4 + |UidArgs(l)|] == UidArgs(l)
    ensures FlashCommand(l, path)[|FlashCommand(l, path)| - 1] == path
  {
  }
}
