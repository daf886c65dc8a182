/** The factories of source/output/output.cpp: `OutputFile::open` picks the
    transport from the output name's prefix, and `ReconFile::open` picks the
    reconstructed-video format from the name's extension. */
module Output {
  import opened Bytes
  import opened Writer

  /** What `OutputFile::open` returns. `RAWOutput` is not part of this
      model; only the name it is opened with is kept. */
  datatype OutputFile =
    | UdpFile(writer: UdpWriter?)
    | BufferFile
    | RawFile(name: string)

  /** `OutputFile::open`: a name starting with `udp://` goes to
      `UdpWriter::construct` (null when the socket cannot be created), else
      one starting with `buffer://` to `BufferWriter::construct`, else the
      raw file writer. `socketFd` is what `socket()` returns for a UDP
      output. */
  method OpenOutput(fname: string, socketFd: int) returns (o: OutputFile)
    requires StartsWith(fname, UdpPrefix) && socketFd != -1 ==> StoiDefined(EndpointPort(fname[|UdpPrefix|..]))
    ensures o.UdpFile? <==> StartsWith(fname, UdpPrefix)
    ensures o.BufferFile? <==> !StartsWith(fname, UdpPrefix) && StartsWith(fname, BufferPrefix)
    ensures o.RawFile? <==> !StartsWith(fname, UdpPrefix) && !StartsWith(fname, BufferPrefix)
    ensures o.RawFile? ==> o.name == fname
    ensures o.UdpFile? ==> (o.writer == null <==> socketFd == -1)
    ensures o.UdpFile? && o.writer != null ==>
      o.writer.sock == socketFd && o.writer.ip == EndpointIp(fname[|UdpPrefix|..])
  {
    if StartsWith(fname, UdpPrefix) {
      var w := Construct(fname, socketFd);
      return UdpFile(w);
    } else if StartsWith(fname, BufferPrefix) {
      var b := new BufferWriter();
      return BufferFile;
    }
    return RawFile(fname);
  }

  /** No name starts with both prefixes, so the order of the two tests does
      not matter and exactly one transport is chosen for every name. */
  lemma PrefixesExclusive(fname: string)
    ensures !(StartsWith(fname, UdpPrefix) && StartsWith(fname, BufferPrefix))
  {
    assert StartsWith(fname, UdpPrefix) ==> fname[0] == 'u';
    assert StartsWith(fname, BufferPrefix) ==> fname[0] == 'b';
  }

  /** The two reconstructed-video formats. */
  datatype ReconFormat = Y4M | Yuv

  /** `strrchr(s, '.')`: the position of the last `'.'`, if any. */
  function LastDot(s: string): (r: Option<nat>)
    ensures r.Some? ==> (r.value < |s| && s[r.value] == '.' &&
                         forall k :: r.value < k < |s| ==> s[k] != '.')
    ensures r.None? ==> forall k :: 0 <= k < |s| ==> s[k] != '.'
  {
    if s == [] then None
    else if s[|s| - 1] == '.' then Some(|s| - 1)
    else LastDot(s[..|s| - 1])
  }

  /** `ReconFile::open`: Y4M exactly when the text from the last `'.'`
      equals `.y4m` (case-sensitive), raw YUV otherwise, including a name
      with no `'.'`. */
  function ReconFormatOf(fname: string): ReconFormat
  {
    match LastDot(fname)
    case Some(d) => if fname[d..] == ".y4m" then Y4M else Yuv
    case None => Yuv
  }

  /** Since `y4m` holds no `'.'`, the test on the last extension is the same
      as asking whether the name ends in `.y4m`. */
  lemma ReconY4mIffSuffix(fname: string)
    ensures ReconFormatOf(fname) == Y4M <==> EndsWith(fname, ".y4m")
  {
    if EndsWith(fname, ".y4m") {
      var d := |fname| - 4;
      assert fname[d..] == ".y4m";
      assert fname[d] == '.';
      assert forall k :: d < k < |fname| ==> fname[k] == fname[d..][k - d];
      var e := LastDot(fname);
      assert e.Some? && e.value == d;
    }
  }
}
