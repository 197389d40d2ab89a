/**
 * The server registry on disk (rust/src/utils/file.rs). The registry is a
 * directory; for every watched file it holds a record `<digest>.server`
 * whose text is `"{port}:{pid}"`, and a companion `<digest>.filepath` whose
 * text is the watched path. The directory is modelled as a map from file
 * name to file text, so that corrupt records and unrelated files can be
 * represented.
 */
module FileUtils {
  import opened RustCore
  import opened RustStr
  import opened RustPath

  const SERVER_EXT := "server"
  const FILEPATH_EXT := "filepath"

  predicate IsLowerHex(c: char) {
    ('0' <= c <= '9') || ('a' <= c <= 'f')
  }

  /** An MD5 digest printed with `{:x}`: 32 lower-case hexadecimal digits. */
  type HexDigest = s: string | |s| == 32 && forall i :: 0 <= i < |s| ==> IsLowerHex(s[i])
    witness "00000000000000000000000000000000"

  /** The MD5 digest of a path string. The hash itself is not modelled: any function will do. */
  type Digest = string -> HexDigest

  /** The entries of the registry directory: file name to file text. */
  type Files = map<string, string>

  // ---------------------------------------------------------------------------
  // file names

  /**
   * `get_server_info_path`: the record of `inputPath` is named by the digest
   * of the path string with extension `server`. The name determines the
   * digest, so two paths share a record exactly when their digests agree.
   */
  function ServerInfoPath(md5: Digest, inputPath: string): (name: string)
    ensures Extension(name) == Some(SERVER_EXT)
    ensures FileStem(name) == md5(inputPath)
    ensures CompanionPath(name) == md5(inputPath) + "." + FILEPATH_EXT
  {
    var d := md5(inputPath);
    assert '.' !in d by {
      assert forall i :: 0 <= i < |d| ==> IsLowerHex(d[i]);
    }
    JoinedName(d, SERVER_EXT);
    d + "." + SERVER_EXT
  }

  /** `with_extension("filepath")`: the name of the companion holding the watched path. */
  function CompanionPath(name: string): string {
    WithExtension(name, FILEPATH_EXT)
  }

  /** A record: a file whose extension is `server`, the filter `kill_all_servers` applies to directory entries. */
  predicate IsServerFile(name: string) {
    Extension(name) == Some(SERVER_EXT)
  }

  /** A companion: a file whose extension is `filepath`. */
  predicate IsCompanionFile(name: string) {
    Extension(name) == Some(FILEPATH_EXT)
  }

  /** The companion of a record is a `.filepath` file whose own `.server` sibling is that record. */
  lemma CompanionOfRecord(name: string)
    requires IsServerFile(name)
    ensures IsCompanionFile(CompanionPath(name))
    ensures WithExtension(CompanionPath(name), SERVER_EXT) == name
    ensures CompanionPath(name) != name
  {
    NameParts(name);
    JoinedName(FileStem(name), FILEPATH_EXT);
  }

  /** No file is both a record and a companion. */
  lemma RecordsAreNotCompanions()
    ensures forall n :: IsServerFile(n) ==> !IsCompanionFile(n)
  {
  }

  /** Distinct records have distinct companions. */
  lemma CompanionInjective(a: string, b: string)
    requires IsServerFile(a) && IsServerFile(b) && CompanionPath(a) == CompanionPath(b)
    ensures a == b
  {
    CompanionOfRecord(a);
    CompanionOfRecord(b);
  }

  /** Every `.filepath` file is the companion of its `.server` sibling. */
  lemma RecordOfCompanion(name: string)
    requires IsCompanionFile(name)
    ensures IsServerFile(WithExtension(name, SERVER_EXT))
    ensures CompanionPath(WithExtension(name, SERVER_EXT)) == name
  {
    NameParts(name);
    JoinedName(FileStem(name), SERVER_EXT);
  }

  // ---------------------------------------------------------------------------
  // the record text

  datatype ServerInfo = ServerInfo(port: u16, pid: u32)

  /** Why `read_server_info` fails. */
  datatype InfoError =
    | ReadFailed    // the file is missing
    | InvalidFormat // the trimmed text does not split into exactly two fields at ':'
    | InvalidPort   // the first field is not a u16
    | InvalidPid    // the second field is not a u32

  /** The text `write_server_info` writes: decimal port, a colon, decimal pid. */
  function FormatServerInfo(port: u16, pid: u32): (text: string)
    ensures multiset(text)[':'] == 1
    ensures forall i :: 0 <= i < |text| ==> IsDigit(text[i]) || text[i] == ':'
  {
    var a, b := DecimalString(port), DecimalString(pid);
    assert multiset(a)[':'] == 0 && multiset(b)[':'] == 0;
    a + ":" + b
  }

  /**
   * The parsing half of `read_server_info`: trim, split at ':', require two
   * fields, parse them as u16 and u32. The format is rejected exactly when the
   * trimmed text does not hold exactly one colon, and a record that parses
   * holds nothing but digits, a colon and leading plus signs once trimmed (so
   * a space inside it, as in "4000 : 1", is rejected).
   */
  function ParseServerInfo(content: string): (r: Result<ServerInfo, InfoError>)
    ensures r == Err(InvalidFormat) <==> multiset(Trim(content))[':'] != 1
    ensures r.Ok? ==> var t := Trim(content);
      forall i :: 0 <= i < |t| ==> IsDigit(t[i]) || t[i] == ':' || t[i] == '+'
  {
    var t := Trim(content);
    var parts := Split(t, ':');
    if |parts| != 2 then
      Err(InvalidFormat)
    else
      SplitPair(t, ':');
      match ParseUnsigned(parts[0], U16_LIMIT)
      case None => Err(InvalidPort)
      case Some(port) =>
        match ParseUnsigned(parts[1], U32_LIMIT)
        case None => Err(InvalidPid)
        case Some(pid) =>
          NumeralFields(t, parts[0], parts[1]);
          Ok(ServerInfo(port, pid))
  }

  lemma NumeralFields(t: string, a: string, b: string)
    requires t == a + [':'] + b
    requires ParseUnsigned(a, U16_LIMIT).Some? && ParseUnsigned(b, U32_LIMIT).Some?
    ensures forall i :: 0 <= i < |t| ==> IsDigit(t[i]) || t[i] == ':' || t[i] == '+'
  {
    forall i | 0 <= i < |t|
      ensures IsDigit(t[i]) || t[i] == ':' || t[i] == '+'
    {
      if i < |a| {
        assert t[i] == a[i];
      } else if i > |a| {
        assert t[i] == b[i - |a| - 1];
      }
    }
  }

  /** `read_server_info`: a missing file fails to read; otherwise its text is parsed. */
  function ReadServerInfo(files: Files, name: string): (r: Result<ServerInfo, InfoError>)
    ensures r == Err(ReadFailed) <==> name !in files
  {
    if name in files then ParseServerInfo(files[name]) else Err(ReadFailed)
  }

  lemma FormatParts(port: u16, pid: u32)
    ensures FormatServerInfo(port, pid) == DecimalString(port) + [':'] + DecimalString(pid)
  {
  }

  /**
   * What is written is read back: the record of (port, pid) parses to
   * (port, pid), also with whitespace around it such as a trailing newline.
   */
  lemma ServerInfoRoundTrip(port: u16, pid: u32, before: string, after: string)
    requires AllWhitespace(before) && AllWhitespace(after)
    ensures ParseServerInfo(before + FormatServerInfo(port, pid) + after) == Ok(ServerInfo(port, pid))
  {
    hide FormatServerInfo, ParseServerInfo, Trim, TrimStart, TrimEnd, Split, ParseUnsigned, DecimalString;
    var a, b := DecimalString(port), DecimalString(pid);
    var text := FormatServerInfo(port, pid);
    FormatParts(port, pid);
    assert text[0] == a[0] && text[|text| - 1] == b[|b| - 1];
    TrimPadded(before, text, after);
    assert ':' !in a && ':' !in b;
    assert text == a + ":" + b;
    ParseServerInfoFields(before + text + after, a, b);
    ParseDecimal(port, U16_LIMIT);
    ParseDecimal(pid, U32_LIMIT);
  }

  /** The record as written parses back to the port and pid it was written from. */
  lemma FormatParses(port: u16, pid: u32)
    ensures ParseServerInfo(FormatServerInfo(port, pid)) == Ok(ServerInfo(port, pid))
  {
    hide ParseServerInfo, FormatServerInfo, Trim, Split, ParseUnsigned, DecimalString;
    ServerInfoRoundTrip(port, pid, "", "");
    assert "" + FormatServerInfo(port, pid) + "" == FormatServerInfo(port, pid);
  }

  /** A record written and then left alone by a write to another file reads back as written. */
  lemma ReadAfterWrite(files: Files, name: string, port: u16, pid: u32, other: string, text: string)
    requires other != name
    ensures ReadServerInfo(files[name := FormatServerInfo(port, pid)][other := text], name) == Ok(ServerInfo(port, pid))
  {
    hide ParseServerInfo, FormatServerInfo;
    FormatParses(port, pid);
  }

  /**
   * Once the text is trimmed and has exactly one colon, the port is judged by
   * the text before the colon and the pid by the text after it.
   */
  lemma ParseServerInfoFields(content: string, port: string, pid: string)
    requires Trim(content) == port + ":" + pid && ':' !in port && ':' !in pid
    ensures ParseServerInfo(content) ==
      match ParseUnsigned(port, U16_LIMIT)
      case None => Err(InvalidPort)
      case Some(p) =>
        match ParseUnsigned(pid, U32_LIMIT)
        case None => Err(InvalidPid)
        case Some(q) => Ok(ServerInfo(p, q))
  {
    SplitAround(port, ':', pid);
    assert port + ":" + pid == port + [':'] + pid;
  }

  // ---------------------------------------------------------------------------
  // the directory

  /**
   * The registry invariant: every record has its companion and every
   * companion has its record. The operations that write the registry keep it.
   */
  ghost predicate Paired(files: Files) {
    && (forall n :: n in files && IsServerFile(n) ==> CompanionPath(n) in files)
    && (forall n :: n in files && IsCompanionFile(n) ==> WithExtension(n, SERVER_EXT) in files)
  }

  /** The registry directory, whose entries the server operations create and delete. */
  class ServerDir {
    var files: Files

    constructor (entries: Files)
      ensures files == entries
    {
      files := entries;
    }

    /**
     * `write_server_info`: the record is replaced outright (no append, no
     * merge), and reading it back gives the port and pid just written.
     */
    method WriteServerInfo(name: string, port: u16, pid: u32)
      modifies this
      ensures files == old(files)[name := FormatServerInfo(port, pid)]
      ensures ReadServerInfo(files, name) == Ok(ServerInfo(port, pid))
    {
      files := files[name := FormatServerInfo(port, pid)];
      FormatParses(port, pid);
    }

    /** `save_file_path_in_server_info`: the companion holds exactly the watched path. */
    method SaveFilePathInServerInfo(name: string, filePath: string)
      modifies this
      ensures files == old(files)[CompanionPath(name) := filePath]
    {
      files := files[CompanionPath(name) := filePath];
    }

    /** `fs::remove_file` on an existing entry. */
    method RemoveFile(name: string)
      requires name in files
      modifies this
      ensures files == old(files) - {name}
    {
      files := files - {name};
    }
  }
}
