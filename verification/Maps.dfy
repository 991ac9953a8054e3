/**
 Parsing /proc/<pid>/maps and choosing the regions to capture (wraith-rust/src/memory.rs).
 */
module Maps {
  import opened Wrappers
  import opened Words

  /** One mapping; `data` and `checksum` are filled in while the process is stopped. */
  datatype Region = Region(
    start: u64, end: u64, perms: string, backingFile: Option<string>, offset: u64,
    regionType: string, data: seq<byte>, checksum: u64)
  {
    // A wrapping 64-bit difference.
    function Size(): u64 { Wrap64(end - start) }

    predicate IsReadable() { perms != [] && perms[0] == 'r' }
  }

  // ---------- Strings ----------

  /** Unicode White_Space, which str::trim removes. */
  predicate IsSpace(c: char) {
    '\U{9}' <= c <= '\U{D}' || c == ' ' || c == '\U{85}' || c == '\U{A0}'
    || c == '\U{1680}' || '\U{2000}' <= c <= '\U{200A}'
    || c == '\U{2028}' || c == '\U{2029}' || c == '\U{202F}' || c == '\U{205F}' || c == '\U{3000}'
  }

  function TrimStart(s: string): string {
    if s != [] && IsSpace(s[0]) then TrimStart(s[1..]) else s
  }

  function TrimEnd(s: string): string {
    if s != [] && IsSpace(s[|s| - 1]) then TrimEnd(s[..|s| - 1]) else s
  }

  function Trim(s: string): string { TrimEnd(TrimStart(s)) }

  /** Position of the first `c`, or the length. */
  function IndexOf(s: string, c: char): (i: nat)
    ensures i <= |s| && c !in s[..i] && (i < |s| ==> s[i] == c)
  {
    if s == [] || s[0] == c then 0
    else
      var i := 1 + IndexOf(s[1..], c);
      assert s[..i] == [s[0]] + s[1..][..i - 1];
      i
  }

  /** Splits at the first n-1 spaces. */
  function SplitN(s: string, n: nat): seq<string>
    requires n > 0
    decreases n
  {
    var i := IndexOf(s, ' ');
    if n == 1 || i == |s| then [s] else [s[..i]] + SplitN(s[i + 1..], n - 1)
  }

  function NonEmpty(parts: seq<string>): seq<string> {
    if parts == [] then []
    else (if parts[0] != [] then [parts[0]] else []) + NonEmpty(parts[1..])
  }

  /** The nonempty pieces among at most n. */
  function Tokens(s: string, n: nat): seq<string>
    requires n > 0
  {
    NonEmpty(SplitN(s, n))
  }

  // ---------- Hexadecimal ----------

  function HexDigit(c: char): Option<nat> {
    if '0' <= c <= '9' then Some(c as int - '0' as int)
    else if 'a' <= c <= 'f' then Some(c as int - 'a' as int + 10)
    else if 'A' <= c <= 'F' then Some(c as int - 'A' as int + 10)
    else None
  }

  /** Checked multiplication and addition at every digit. */
  function ParseDigits(s: string, acc: u64): Option<u64>
    decreases |s|
  {
    if s == [] then Some(acc)
    else match HexDigit(s[0])
      case None => None
      case Some(d) => if acc * 16 + d >= TWO_64 then None else ParseDigits(s[1..], acc * 16 + d)
  }

  // Hexadecimal as Rust parses it: one leading '+' is allowed, and there must be a digit.
  function ParseHex(s: string): Option<u64> {
    var digits := if s != [] && s[0] == '+' then s[1..] else s;
    if digits == [] then None else ParseDigits(digits, 0)
  }

  // ---------- Lines ----------

  datatype ParseError = MissingAddress | MissingPerms | MissingOffset | MalformedRange | BadStart | BadEnd | BadOffset

  /** The text fields of a line that the parser uses. */
  datatype Fields = Fields(addr: string, perms: string, offset: string, path: string)

  function FieldsOf(line: string): Result<Fields, ParseError> {
    var t := Tokens(line, 6);
    if |t| < 1 then Failure(MissingAddress)
    else if |t| < 2 then Failure(MissingPerms)
    else if |t| < 3 then Failure(MissingOffset)
    else Success(Fields(t[0], t[1], t[2], if |t| > 5 then Trim(t[5]) else ""))
  }

  function Classify(pathname: string): string {
    if pathname == "[heap]" then "heap"
    else if pathname == "[stack]" then "stack"
    else if pathname == "[vdso]" then "vdso"
    else if pathname == "[vsyscall]" then "vsyscall"
    else if pathname == "[vvar]" then "vvar"
    else if pathname != [] && pathname[0] == '/' then "file"
    else if pathname == [] then "anon"
    else "other"
  }

  function Backing(pathname: string): Option<string> {
    if pathname != [] && (pathname[0] == '/' || pathname[0] == '.') then Some(pathname) else None
  }

  function RegionFrom(f: Fields): Result<Region, ParseError> {
    var i := IndexOf(f.addr, '-');
    if i == |f.addr| then Failure(MalformedRange)
    else
      var start, end, offset := ParseHex(f.addr[..i]), ParseHex(f.addr[i + 1..]), ParseHex(f.offset);
      if start == None then Failure(BadStart)
      else if end == None then Failure(BadEnd)
      else if offset == None then Failure(BadOffset)
      else Success(Region(start.value, end.value, f.perms, Backing(f.path), offset.value, Classify(f.path), [], 0))
  }

  function ParseMapsLine(text: string): Result<Option<Region>, ParseError> {
    var line := Trim(text);
    if line == [] then Success(None)
    else match FieldsOf(line)
      case Failure(e) => Failure(e)
      case Success(f) =>
        match RegionFrom(f)
        case Failure(e) => Failure(e)
        case Success(r) => Success(Some(r))
  }

  /** Blank lines are dropped and malformed ones skipped. */
  function ParsedLines(lines: seq<string>): seq<Region> {
    if lines == [] then []
    else match ParseMapsLine(lines[0])
      case Success(Some(r)) => [r] + ParsedLines(lines[1..])
      case _ => ParsedLines(lines[1..])
  }

  lemma NextLine(regions: seq<Region>, lines: seq<string>, i: nat)
    requires i < |lines|
    ensures var next := match ParseMapsLine(lines[i])
                        case Success(Some(r)) => regions + [r]
                        case _ => regions;
            next + ParsedLines(lines[i + 1..]) == regions + ParsedLines(lines[i..])
  {
    hide ParseMapsLine;
    var rest := lines[i..];
    assert rest[0] == lines[i] && rest[1..] == lines[i + 1..];
    match ParseMapsLine(lines[i])
    case Success(Some(r)) =>
      assert (regions + [r]) + ParsedLines(rest[1..]) == regions + ([r] + ParsedLines(rest[1..]));
    case _ =>
  }

  method ParseMaps(lines: seq<string>) returns (regions: seq<Region>)
    ensures regions == ParsedLines(lines)
  {
    regions := [];
    assert lines[0..] == lines && [] + ParsedLines(lines) == ParsedLines(lines);
    for i := 0 to |lines|
      invariant regions + ParsedLines(lines[i..]) == ParsedLines(lines)
    {
      hide ParseMapsLine, ParsedLines;
      NextLine(regions, lines, i);
      match ParseMapsLine(lines[i]) {
        case Success(Some(region)) =>
          regions := regions + [region];
        case _ =>
      }
    }
  }

  predicate ShouldSkip(r: Region) {
    r.Size() == 0 || !r.IsReadable() || r.regionType == "vsyscall" || r.regionType == "vvar"
  }
}
