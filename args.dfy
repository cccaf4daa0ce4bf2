/** check_args: the program name, the argument count, the mode table and the socket path bound. */
module Args {
  import opened Wire

  datatype Mode = ClientRole | ServerRole

  /** A C string: its bytes up to, and not including, the terminating NUL. */
  type CString = s: seq<Byte> | forall i :: 0 <= i < |s| ==> s[i] != 0

  /** The bytes of an ASCII literal. */
  function Ascii(s: string): CString
    requires forall i :: 0 <= i < |s| ==> 0 < s[i] as int < 128
  {
    seq(|s|, i requires 0 <= i < |s| => s[i] as int)
  }

  const ClientArg: CString := Ascii("--client")
  const ServerArg: CString := Ascii("--server")

  /** The mode table, searched in order by strcmp, which on C strings is byte-sequence equality. */
  const Modes: seq<(CString, Mode)> := [(ClientArg, ClientRole), (ServerArg, ServerRole)]

  datatype ArgsError = NoProgramName | BadArgCount | InvalidMode | SocketPathTooLong

  /** What a successful check leaves in the program record. */
  datatype Config = Config(name: CString, mode: Mode, socketPath: CString)

  /** The linear search of the mode table from entry i: the first matching entry, or |Modes| when none matches. */
  function FindMode(arg: CString, i: nat): (k: nat)
    requires i <= |Modes|
    ensures i <= k <= |Modes|
    ensures k < |Modes| ==> Modes[k].0 == arg
    ensures forall j :: i <= j < k ==> Modes[j].0 != arg
    decreases |Modes| - i
  {
    if i == |Modes| then i
    else if Modes[i].0 == arg then i
    else FindMode(arg, i + 1)
  }

  /**
   * check_args over argv, one entry per argument (argc == |argv|); argv[0] may be a null
   * pointer (None), every later argument is a C string. Lengths are strlen's: counted in bytes.
   */
  function CheckArgs(argv: seq<Option<CString>>): (r: Result<Config, ArgsError>)
    requires forall i :: 1 <= i < |argv| ==> argv[i].Some?
    ensures r.Ok? <==>
      |argv| >= 3 && argv[0].Some? &&
      (argv[1].value == ClientArg || argv[1].value == ServerArg) &&
      |argv[2].value| < SunPathCapacity
    ensures r.Ok? ==>
      r.value.name == argv[0].value && r.value.socketPath == argv[2].value &&
      (r.value.mode == ClientRole <==> argv[1].value == ClientArg)
    ensures r.Ok? ==> |r.value.socketPath| + 1 <= SunPathCapacity
  {
    if |argv| < 1 || argv[0].None? then Err(NoProgramName)
    else if |argv| < 3 then Err(BadArgCount)
    else
      var k := FindMode(argv[1].value, 0);
      if k == |Modes| then Err(InvalidMode)
      else if |argv[2].value| >= SunPathCapacity then Err(SocketPathTooLong)
      else Ok(Config(argv[0].value, Modes[k].1, argv[2].value))
  }

  /** The checks run in order: a missing name before the count, the count before the mode, the mode before the path. */
  lemma CheckArgsErrorOrder(argv: seq<Option<CString>>)
    requires forall i :: 1 <= i < |argv| ==> argv[i].Some?
    ensures |argv| < 1 || argv[0].None? ==> CheckArgs(argv) == Err(NoProgramName)
    ensures |argv| >= 1 && argv[0].Some? && |argv| < 3 ==> CheckArgs(argv) == Err(BadArgCount)
    ensures |argv| >= 3 && argv[0].Some? && argv[1].value != ClientArg && argv[1].value != ServerArg ==>
      CheckArgs(argv) == Err(InvalidMode)
  {
    if |argv| >= 3 && argv[0].Some? && argv[1].value != ClientArg && argv[1].value != ServerArg {
      var k := FindMode(argv[1].value, 0);
      assert k == |Modes|;
    }
  }
}
