/** `Reader::ParseDevicesFromCommandLine` of source/input/reader.cpp: a scan
    of `argv` that picks up the device name, the quality and the frame rate
    by prefix-matching each argument against `--input`, `--quality` and
    `--fps`. */
module ArgScan {
  import opened Bytes

  const DeviceFlag: string := "--input"
  const QualityFlag: string := "--quality"
  const FpsFlag: string := "--fps"

  /** `CommandLineArs`: the device name, the frame rate as text, and the
      quality. */
  datatype Args = Args(device: string, fps: string, quality: int)

  /** The defaults: no device, no frame rate, quality 80. */
  const DefaultArgs := Args("", "", 80)

  /** The outcome of the scan: `valid` is false when it stopped at an
      argument shorter than two characters; `args` holds every assignment
      made until then. */
  datatype Scan = Scan(valid: bool, args: Args)

  /** The scan can run to its end from position `i` without reading past
      `argv` or handing `std::stoi` something it rejects: every flag it
      meets has a following argument, and every quality value is a plain
      numeral that fits an `int` (a subset of what `std::stoi` accepts). */
  predicate ScanDefined(argv: seq<string>, i: nat)
    decreases |argv| - i
  {
    if i >= |argv| || |argv[i]| < 2 then true
    else if StartsWith(argv[i], DeviceFlag) then i + 1 < |argv| && ScanDefined(argv, i + 2)
    else if StartsWith(argv[i], QualityFlag) then
      i + 1 < |argv| && StoiDefined(argv[i + 1]) && ScanDefined(argv, i + 2)
    else if StartsWith(argv[i], FpsFlag) then i + 1 < |argv| && ScanDefined(argv, i + 2)
    else ScanDefined(argv, i + 1)
  }

  /** The loop from position `i` on, as written: the tests are prefix tests
      (`strncmp` over the flag's length), a matched flag consumes the next
      argument as its value, and that value is not itself checked. */
  function ScanFrom(argv: seq<string>, i: nat, a: Args): Scan
    requires ScanDefined(argv, i)
    decreases |argv| - i
  {
    if i >= |argv| then Scan(true, a)
    else if |argv[i]| < 2 then Scan(false, a)
    else if StartsWith(argv[i], DeviceFlag) then ScanFrom(argv, i + 2, a.(device := argv[i + 1]))
    else if StartsWith(argv[i], QualityFlag) then ScanFrom(argv, i + 2, a.(quality := Stoi(argv[i + 1])))
    else if StartsWith(argv[i], FpsFlag) then ScanFrom(argv, i + 2, a.(fps := argv[i + 1]))
    else ScanFrom(argv, i + 1, a)
  }

  class Reader {
    var args: Args

    /** `Reader()`: the arguments start at their defaults. */
    constructor ()
      ensures args == DefaultArgs
    {
      args := DefaultArgs;
    }

    /** `ParseDevicesFromCommandLine(argc, argv)` with `argc == |argv|`:
        false for fewer than two arguments, false when the scan meets an
        argument shorter than two characters, false when no device name was
        given, true otherwise. */
    method ParseDevicesFromCommandLine(argv: seq<string>) returns (ok: bool)
      requires |argv| >= 2 ==> ScanDefined(argv, 0)
      modifies this
      ensures |argv| < 2 ==> !ok && args == old(args)
      ensures |argv| >= 2 ==>
        (var r := ScanFrom(argv, 0, old(args));
         args == r.args && ok == (r.valid && |r.args.device| > 0))
    {
      if |argv| < 2 {
        return false;
      }
      var i := 0;
      while i < |argv|
        invariant 0 <= i && ScanDefined(argv, i)
        invariant ScanFrom(argv, 0, old(args)) == ScanFrom(argv, i, args)
        decreases |argv| - i
      {
        if |argv[i]| < 2 {
          return false;
        }
        if StartsWith(argv[i], DeviceFlag) {
          i := i + 1;
          args := args.(device := argv[i]);
        } else if StartsWith(argv[i], QualityFlag) {
          i := i + 1;
          args := args.(quality := Stoi(argv[i]));
        } else if StartsWith(argv[i], FpsFlag) {
          i := i + 1;
          args := args.(fps := argv[i]);
        }
        i := i + 1;
      }
      if |args.device| == 0 {
        return false;
      }
      return true;
    }
  }

  /** As written, the device name is the value after some argument that
      merely starts with `--input` (such as `--input-res` or
      `--input-depth`), or it is unchanged. */
  lemma {:induction false} ScanDeviceOrigin(argv: seq<string>, i: nat, a: Args)
    requires ScanDefined(argv, i)
    ensures var d := ScanFrom(argv, i, a).args.device;
      d == a.device || exists j :: i <= j < |argv| - 1 && StartsWith(argv[j], DeviceFlag) && argv[j + 1] == d
    decreases |argv| - i
  {
    if i < |argv| && |argv[i]| >= 2 {
      if StartsWith(argv[i], DeviceFlag) {
        ScanDeviceOrigin(argv, i + 2, a.(device := argv[i + 1]));
      } else if StartsWith(argv[i], QualityFlag) {
        ScanDeviceOrigin(argv, i + 2, a.(quality := Stoi(argv[i + 1])));
      } else if StartsWith(argv[i], FpsFlag) {
        ScanDeviceOrigin(argv, i + 2, a.(fps := argv[i + 1]));
      } else {
        ScanDeviceOrigin(argv, i + 1, a);
      }
    }
  }

  /** The quality changes only through the value after a `--quality`
      argument, read by `std::stoi`. */
  lemma {:induction false} ScanQualityOrigin(argv: seq<string>, i: nat, a: Args)
    requires ScanDefined(argv, i)
    ensures var q := ScanFrom(argv, i, a).args.quality;
      q == a.quality ||
      exists j :: i <= j < |argv| - 1 && StartsWith(argv[j], QualityFlag) &&
        StoiDefined(argv[j + 1]) && Stoi(argv[j + 1]) == q
    decreases |argv| - i
  {
    if i < |argv| && |argv[i]| >= 2 {
      if StartsWith(argv[i], DeviceFlag) {
        ScanQualityOrigin(argv, i + 2, a.(device := argv[i + 1]));
      } else if StartsWith(argv[i], QualityFlag) {
        ScanQualityOrigin(argv, i + 2, a.(quality := Stoi(argv[i + 1])));
      } else if StartsWith(argv[i], FpsFlag) {
        ScanQualityOrigin(argv, i + 2, a.(fps := argv[i + 1]));
      } else {
        ScanQualityOrigin(argv, i + 1, a);
      }
    }
  }

  /** An argument shorter than two characters at a scanned position stops
      the scan as invalid: in particular a one-character program name. */
  lemma ShortProgramNameRejected(argv: seq<string>, a: Args)
    requires |argv| > 0 && |argv[0]| < 2
    ensures ScanDefined(argv, 0) && !ScanFrom(argv, 0, a).valid
  {
  }

  lemma DiffersAt(s: string, prefix: string, k: nat)
    requires k < |s| && k < |prefix| && s[k] != prefix[k]
    ensures !StartsWith(s, prefix)
  {
    if |prefix| <= |s| {
      assert s[..|prefix|][k] != prefix[k];
    }
  }

  /** An argument whose character `k` differs from that of every flag is
      no flag. */
  lemma NotFlag(s: string, k: nat)
    requires k < |s| && k < 5 && s[k] != DeviceFlag[k] && s[k] != QualityFlag[k] && s[k] != FpsFlag[k]
    ensures !StartsWith(s, DeviceFlag) && !StartsWith(s, QualityFlag) && !StartsWith(s, FpsFlag)
  {
    DiffersAt(s, DeviceFlag, k);
    DiffersAt(s, QualityFlag, k);
    DiffersAt(s, FpsFlag, k);
  }

  /** The command line of the program's own usage message: the scan as
      written takes `--input-res` for `--input`, so the device name ends up
      as the resolution `700x600`. */
  const UsageArgv: seq<string> := ["./x265enc", "--input", "/home/oosman/Downloads/rgb.data",
    "--input-res", "700x600", "--fps", "30", "--output", "/tmp/frames.hevc"]

  lemma UsageDeviceIsResolution()
    ensures ScanDefined(UsageArgv, 0)
    ensures ScanFrom(UsageArgv, 0, DefaultArgs) == Scan(true, Args("700x600", "30", 80))
  {
    var argv := UsageArgv;
    NotFlag(argv[0], 0);
    assert StartsWith(argv[1], DeviceFlag);
    assert StartsWith(argv[3], DeviceFlag);
    DiffersAt(argv[5], DeviceFlag, 2);
    DiffersAt(argv[5], QualityFlag, 2);
    assert StartsWith(argv[5], FpsFlag);
    NotFlag(argv[7], 2);
    NotFlag(argv[8], 0);
    assert ScanDefined(argv, 9);
    assert ScanDefined(argv, 8);
    assert ScanDefined(argv, 7);
    assert ScanDefined(argv, 5);
    assert ScanDefined(argv, 3);
    assert ScanDefined(argv, 1);
    var a := DefaultArgs;
    assert ScanFrom(argv, 0, a) == ScanFrom(argv, 1, a);
    assert ScanFrom(argv, 1, a) == ScanFrom(argv, 3, a.(device := argv[2]));
    assert ScanFrom(argv, 3, a.(device := argv[2])) == ScanFrom(argv, 5, a.(device := argv[4]));
    assert ScanFrom(argv, 5, a.(device := argv[4])) == ScanFrom(argv, 7, Args(argv[4], argv[6], 80));
  }

  /** The scan with whole-argument matching, as the flags are evidently
      meant: an argument is a flag only when it equals the flag. */
  predicate ExactDefined(argv: seq<string>, i: nat)
    decreases |argv| - i
  {
    if i >= |argv| || |argv[i]| < 2 then true
    else if argv[i] == DeviceFlag then i + 1 < |argv| && ExactDefined(argv, i + 2)
    else if argv[i] == QualityFlag then
      i + 1 < |argv| && StoiDefined(argv[i + 1]) && ExactDefined(argv, i + 2)
    else if argv[i] == FpsFlag then i + 1 < |argv| && ExactDefined(argv, i + 2)
    else ExactDefined(argv, i + 1)
  }

  function ScanExact(argv: seq<string>, i: nat, a: Args): Scan
    requires ExactDefined(argv, i)
    decreases |argv| - i
  {
    if i >= |argv| then Scan(true, a)
    else if |argv[i]| < 2 then Scan(false, a)
    else if argv[i] == DeviceFlag then ScanExact(argv, i + 2, a.(device := argv[i + 1]))
    else if argv[i] == QualityFlag then ScanExact(argv, i + 2, a.(quality := Stoi(argv[i + 1])))
    else if argv[i] == FpsFlag then ScanExact(argv, i + 2, a.(fps := argv[i + 1]))
    else ScanExact(argv, i + 1, a)
  }

  /** With whole-argument matching the device name can only come from the
      argument right after `--input` itself. */
  lemma {:induction false} ExactDeviceOrigin(argv: seq<string>, i: nat, a: Args)
    requires ExactDefined(argv, i)
    ensures var d := ScanExact(argv, i, a).args.device;
      d == a.device || exists j :: i <= j < |argv| - 1 && argv[j] == DeviceFlag && argv[j + 1] == d
    decreases |argv| - i
  {
    if i < |argv| && |argv[i]| >= 2 {
      if argv[i] == DeviceFlag {
        ExactDeviceOrigin(argv, i + 2, a.(device := argv[i + 1]));
      } else if argv[i] == QualityFlag {
        ExactDeviceOrigin(argv, i + 2, a.(quality := Stoi(argv[i + 1])));
      } else if argv[i] == FpsFlag {
        ExactDeviceOrigin(argv, i + 2, a.(fps := argv[i + 1]));
      } else {
        ExactDeviceOrigin(argv, i + 1, a);
      }
    }
  }

  /** On the usage command line, whole-argument matching keeps the device
      path. */
  lemma UsageDeviceExact()
    ensures ExactDefined(UsageArgv, 0)
    ensures ScanExact(UsageArgv, 0, DefaultArgs) == Scan(true, Args("/home/oosman/Downloads/rgb.data", "30", 80))
  {
    var argv := UsageArgv;
    assert argv[1] == DeviceFlag && argv[3] != DeviceFlag && argv[3] != QualityFlag && argv[3] != FpsFlag;
    assert argv[4] != DeviceFlag && argv[4] != QualityFlag && argv[4] != FpsFlag;
    assert argv[5] == FpsFlag;
    assert ExactDefined(argv, 9);
    assert ExactDefined(argv, 8);
    assert ExactDefined(argv, 7);
    assert ExactDefined(argv, 5);
    assert ExactDefined(argv, 4);
    assert ExactDefined(argv, 3);
    assert ExactDefined(argv, 1);
    var a := DefaultArgs.(device := argv[2]);
    assert ScanExact(argv, 0, DefaultArgs) == ScanExact(argv, 3, a);
    assert ScanExact(argv, 3, a) == ScanExact(argv, 5, a);
    assert ScanExact(argv, 5, a) == ScanExact(argv, 7, a.(fps := argv[6]));
  }
}
