/**
 Parsing inverts printing: the maps format as the kernel writes it, and which spacing the
 parser depends on.
 */
module MapsProofs {
  import opened Wrappers
  import opened Words
  import opened Maps

  // ---------- Hexadecimal ----------

  function DigitChar(d: nat): char
    requires d < 16
  {
    if d < 10 then ('0' as int + d) as char else ('a' as int + d - 10) as char
  }

  function Hex(n: nat): string {
    if n < 16 then [DigitChar(n)] else Hex(n / 16) + [DigitChar(n % 16)]
  }

  /** Lower-case digits, padded with zeros to a width, as printf's %0*lx. */
  function PaddedHex(n: nat, width: nat): string {
    seq(if |Hex(n)| < width then width - |Hex(n)| else 0, _ => '0') + Hex(n)
  }

  predicate AllHex(s: string) { forall i | 0 <= i < |s| :: HexDigit(s[i]).Some? }

  /** The number a digit string denotes, of any size, continuing from `acc`. */
  function HexValue(s: string, acc: nat): nat
    requires AllHex(s)
  {
    if s == [] then acc else HexValue(s[1..], acc * 16 + HexDigit(s[0]).value)
  }

  lemma {:induction false} HexValueGrows(s: string, acc: nat)
    requires AllHex(s)
    ensures HexValue(s, acc) >= acc
    decreases |s|
  {
    if s != [] {
      HexValueGrows(s[1..], acc * 16 + HexDigit(s[0]).value);
    }
  }

  /** The checked parser accepts exactly the digit strings whose value fits 64 bits. */
  lemma {:induction false} ParseDigitsExact(s: string, acc: u64)
    ensures ParseDigits(s, acc) == if AllHex(s) && HexValue(s, acc) < TWO_64 then Some(HexValue(s, acc)) else None
    decreases |s|
  {
    if s != [] && HexDigit(s[0]).Some? {
      var next := acc * 16 + HexDigit(s[0]).value;
      if AllHex(s[1..]) {
        HexValueGrows(s[1..], next);
        assert AllHex(s);
      }
      if next < TWO_64 {
        ParseDigitsExact(s[1..], next);
      }
    }
  }

  lemma {:induction false} HexValueConcat(a: string, b: string, acc: nat)
    requires AllHex(a) && AllHex(b)
    ensures AllHex(a + b) && HexValue(a + b, acc) == HexValue(b, HexValue(a, acc))
    decreases |a|
  {
    if a == [] {
      assert a + b == b;
    } else {
      assert (a + b)[1..] == a[1..] + b;
      HexValueConcat(a[1..], b, acc * 16 + HexDigit(a[0]).value);
    }
  }

  lemma DigitRoundTrip(d: nat)
    requires d < 16
    ensures HexDigit(DigitChar(d)) == Some(d)
  {
  }

  lemma {:induction false} HexRoundTrip(n: nat)
    ensures AllHex(Hex(n)) && HexValue(Hex(n), 0) == n && Hex(n) != []
  {
    DigitRoundTrip(n % 16);
    if n >= 16 {
      HexRoundTrip(n / 16);
      HexValueConcat(Hex(n / 16), [DigitChar(n % 16)], 0);
    }
  }

  lemma {:induction false} LeadingZeros(k: nat, s: string)
    requires AllHex(s)
    ensures var z := seq(k, _ => '0') + s; AllHex(z) && HexValue(z, 0) == HexValue(s, 0)
  {
    var z := seq(k, _ => '0') + s;
    if k == 0 {
      assert z == s;
    } else {
      LeadingZeros(k - 1, s);
      assert z[1..] == seq(k - 1, _ => '0') + s;
      assert z[0] == '0';
    }
  }

  /** The hexadecimal digits are these, in either case, each with its place as its value. */
  lemma HexDigitExact(c: char)
    ensures HexDigit(c).Some? <==> c in "0123456789abcdef" || c in "0123456789ABCDEF"
    ensures HexDigit(c).Some? ==>
              var d := HexDigit(c).value;
              d < 16 && ("0123456789abcdef"[d] == c || "0123456789ABCDEF"[d] == c)
  {
  }

  // The characters with the Unicode property White_Space.
  const WHITE_SPACE: string :=
    "\U{9}\U{A}\U{B}\U{C}\U{D} \U{85}\U{A0}\U{1680}\U{2000}\U{2001}\U{2002}\U{2003}\U{2004}\U{2005}\U{2006}"
    + "\U{2007}\U{2008}\U{2009}\U{200A}\U{2028}\U{2029}\U{202F}\U{205F}\U{3000}"

  lemma SpaceExact(c: char)
    ensures IsSpace(c) <==> c in WHITE_SPACE
  {
  }

  lemma HexHasNoSign(c: char)
    requires HexDigit(c).Some?
    ensures c != '+' && c != '-' && c != ' ' && !IsSpace(c)
  {
  }

  /** Parsing a printed number gives it back if it fits 64 bits and is refused otherwise, with any zero padding. */
  lemma ParseHexRoundTrip(n: nat, width: nat)
    ensures ParseHex(PaddedHex(n, width)) == if n < TWO_64 then Some(n) else None
    ensures PaddedHex(n, width) != [] && AllHex(PaddedHex(n, width))
  {
    HexRoundTrip(n);
    LeadingZeros(if |Hex(n)| < width then width - |Hex(n)| else 0, Hex(n));
    var s := PaddedHex(n, width);
    HexHasNoSign(s[0]);
    ParseDigitsExact(s, 0);
  }

  // ---------- Splitting ----------

  predicate NoSpaceChar(s: string) { ' ' !in s }

  function Blanks(k: nat): (s: string)
    ensures |s| == k && forall i | 0 <= i < k :: s[i] == ' '
  {
    seq(k, _ => ' ')
  }

  lemma {:induction false} IndexOfFirst(a: string, c: char, b: string)
    requires c !in a
    ensures IndexOf(a + [c] + b, c) == |a|
    ensures IndexOf(a, c) == |a|
  {
    if a != [] {
      IndexOfFirst(a[1..], c, b);
      assert (a + [c] + b)[1..] == a[1..] + [c] + b;
      assert a[0] in a;
    }
  }

  /** One split: the piece before the first space, and the rest split further. */
  lemma SplitStep(a: string, b: string, n: nat)
    requires NoSpaceChar(a) && n > 1
    ensures Tokens(a + " " + b, n) == (if a != [] then [a] else []) + Tokens(b, n - 1)
  {
    var s := a + " " + b;
    IndexOfFirst(a, ' ', b);
    assert s[..|a|] == a && s[|a| + 1..] == b;
    assert SplitN(s, n) == [a] + SplitN(b, n - 1);
    assert ([a] + SplitN(b, n - 1))[1..] == SplitN(b, n - 1);
  }

  lemma NoSplit(a: string, n: nat)
    requires a != [] && n > 0 && (n == 1 || NoSpaceChar(a))
    ensures Tokens(a, n) == [a]
  {
    if n > 1 {
      IndexOfFirst(a, ' ', []);
    }
    assert SplitN(a, n) == [a];
    SinglePiece(a);
  }

  lemma SinglePiece(a: string)
    ensures NonEmpty([a]) == if a != [] then [a] else []
  {
    assert [a][1..] == [];
    assert NonEmpty([]) == [];
  }

  lemma {:induction false} TokenCount(s: string, n: nat)
    requires n > 0
    ensures |Tokens(s, n)| <= n
    decreases n
  {
    var i := IndexOf(s, ' ');
    if n == 1 || i == |s| {
      assert SplitN(s, n) == [s];
      SinglePiece(s);
    } else {
      TokenCount(s[i + 1..], n - 1);
      assert s == s[..i] + " " + s[i + 1..];
      SplitStep(s[..i], s[i + 1..], n);
    }
  }

  /** Leading blanks use up splits without giving pieces. */
  lemma {:induction false} SkipBlanks(k: nat, b: string, n: nat)
    requires n > 0
    ensures Tokens(Blanks(k) + b, n) == if k < n then Tokens(b, n - k) else [Blanks(k - n + 1) + b]
    decreases k
  {
    var s := Blanks(k) + b;
    if k == 0 {
      assert s == b;
    } else if n == 1 {
      NoSplit(s, 1);
    } else {
      assert s == "" + " " + (Blanks(k - 1) + b);
      SplitStep("", Blanks(k - 1) + b, n);
      SkipBlanks(k - 1, b, n - 1);
    }
  }

  /** A token followed by a gap of blanks. */
  datatype Spaced = Spaced(token: string, gap: nat)

  ghost predicate ValidSpaced(ps: seq<Spaced>) {
    forall i | 0 <= i < |ps| :: ps[i].token != [] && NoSpaceChar(ps[i].token) && ps[i].gap >= 1
  }

  function Build(ps: seq<Spaced>, last: string): string {
    if ps == [] then last else ps[0].token + Blanks(ps[0].gap) + Build(ps[1..], last)
  }

  function TokenList(ps: seq<Spaced>): (ts: seq<string>)
    ensures |ts| == |ps|
  {
    seq(|ps|, i requires 0 <= i < |ps| => ps[i].token)
  }

  ghost predicate SingleGaps(ps: seq<Spaced>) { forall i | 0 <= i < |ps| :: ps[i].gap == 1 }

  lemma TokenThenGap(p: Spaced, rest: string, n: nat)
    requires p.token != [] && NoSpaceChar(p.token) && p.gap >= 1 && n > 1
    ensures Tokens(p.token + Blanks(p.gap) + rest, n)
         == [p.token] + (if p.gap < n then Tokens(rest, n - p.gap) else [Blanks(p.gap - n + 1) + rest])
  {
    var s := p.token + Blanks(p.gap) + rest;
    assert s == p.token + " " + (Blanks(p.gap - 1) + rest);
    SplitStep(p.token, Blanks(p.gap - 1) + rest, n);
    SkipBlanks(p.gap - 1, rest, n - 1);
  }

  /** With two more pieces allowed than there are gaps, single gaps leave the last two pieces to
      the end of the line, and any wider gap costs the last piece. */
  lemma {:induction false} TokensOfBuild(ps: seq<Spaced>, last: string)
    requires ValidSpaced(ps)
    ensures SingleGaps(ps) ==> Tokens(Build(ps, last), |ps| + 2) == TokenList(ps) + Tokens(last, 2)
    ensures !SingleGaps(ps) ==> |Tokens(Build(ps, last), |ps| + 2)| <= |ps| + 1
    decreases |ps|
  {
    if ps == [] {
      assert TokenList(ps) + Tokens(last, 2) == Tokens(last, 2);
    } else {
      var rest := ps[1..];
      var tail := Build(rest, last);
      TokenThenGap(ps[0], tail, |ps| + 2);
      TokensOfBuild(rest, last);
      if ps[0].gap == 1 {
        SingleGapsStep(ps);
        assert TokenList(ps) == [ps[0].token] + TokenList(rest);
      } else if ps[0].gap < |ps| + 2 {
        TokenCount(tail, |ps| + 2 - ps[0].gap);
      }
    }
  }

  lemma SingleGapsStep(ps: seq<Spaced>)
    requires ps != [] && ps[0].gap == 1
    ensures SingleGaps(ps) <==> SingleGaps(ps[1..])
  {
    if SingleGaps(ps[1..]) {
      forall i | 0 <= i < |ps| ensures ps[i].gap == 1 {
        if i > 0 { assert ps[i] == ps[1..][i - 1]; }
      }
    }
  }

  // ---------- Trimming ----------

  lemma {:induction false} TrimEndBlanks(s: string, k: nat)
    ensures TrimEnd(s + Blanks(k)) == TrimEnd(s)
    decreases k
  {
    if k == 0 {
      assert s + Blanks(0) == s;
    } else {
      var t := s + Blanks(k);
      assert t[..|t| - 1] == s + Blanks(k - 1);
      TrimEndBlanks(s, k - 1);
    }
  }

  lemma {:induction false} TrimStartBlanks(k: nat, s: string)
    ensures TrimStart(Blanks(k) + s) == TrimStart(s)
    decreases k
  {
    if k == 0 {
      assert Blanks(0) + s == s;
    } else {
      var t := Blanks(k) + s;
      assert t[1..] == Blanks(k - 1) + s;
      TrimStartBlanks(k - 1, s);
    }
  }

  /** Neither the first nor the last character is white space. */
  predicate Tight(s: string) { s == [] || (!IsSpace(s[0]) && !IsSpace(s[|s| - 1])) }

  lemma TrimTight(s: string, k: nat)
    requires Tight(s)
    ensures Trim(s) == s && Trim(s + Blanks(k)) == s && Trim(Blanks(k) + s) == s
  {
    TrimStartBlanks(k, s);
    TrimEndBlanks(s, k);
    if s == [] {
      assert s + Blanks(k) == Blanks(k) + s;
    } else {
      assert (s + Blanks(k))[0] == s[0];
    }
  }

  // ---------- Printed lines ----------

  /** A mapping as the kernel prints it. */
  datatype Vma = Vma(start: u64, end: u64, perms: string, offset: u64, dev: string, inode: string, pad: nat,
      path: string)

  ghost predicate WellFormed(v: Vma) {
    v.perms != [] && NoSpaceChar(v.perms) && v.dev != [] && NoSpaceChar(v.dev)
    && v.inode != [] && NoSpaceChar(v.inode) && Tight(v.inode) && Tight(v.path) && (v.path != [] ==> v.pad >= 1)
  }

  /** Blanks between the first five fields. */
  datatype Gaps = Gaps(g1: nat, g2: nat, g3: nat, g4: nat)

  const PROCFS: Gaps := Gaps(1, 1, 1, 1)

  function AddrField(start: nat, end: nat): string { PaddedHex(start, 8) + "-" + PaddedHex(end, 8) }

  function Leading(v: Vma, g: Gaps): seq<Spaced> {
    [Spaced(AddrField(v.start, v.end), g.g1), Spaced(v.perms, g.g2), Spaced(PaddedHex(v.offset, 8), g.g3),
        Spaced(v.dev, g.g4)]
  }

  function PrintLine(v: Vma, g: Gaps): string { Build(Leading(v, g), v.inode + Blanks(v.pad) + v.path) }

  lemma AddrFieldParts(start: nat, end: nat)
    ensures var a, s := AddrField(start, end), PaddedHex(start, 8);
            a != [] && NoSpaceChar(a) && !IsSpace(a[0])
            && IndexOf(a, '-') == |s| < |a| && a[..|s|] == s && a[|s| + 1..] == PaddedHex(end, 8)
  {
    var s, e := PaddedHex(start, 8), PaddedHex(end, 8);
    ParseHexRoundTrip(start, 8);
    ParseHexRoundTrip(end, 8);
    forall i | 0 <= i < |s| ensures s[i] != '-' && s[i] != ' ' && !IsSpace(s[i]) { HexHasNoSign(s[i]); }
    forall i | 0 <= i < |e| ensures e[i] != ' ' { HexHasNoSign(e[i]); }
    IndexOfFirst(s, '-', e);
  }

  /** The three numbers of a line are taken exactly when all fit 64 bits; otherwise the first that does not is named. */
  lemma NumbersChecked(start: nat, end: nat, offset: nat, perms: string, path: string)
    ensures RegionFrom(Fields(AddrField(start, end), perms, PaddedHex(offset, 8), path)) ==
            if start >= TWO_64 then Failure(BadStart)
            else if end >= TWO_64 then Failure(BadEnd)
            else if offset >= TWO_64 then Failure(BadOffset)
            else Success(Region(start, end, perms, Backing(path), offset, Classify(path), [], 0))
  {
    hide AddrField, PaddedHex, Classify, Backing, ParseHex;
    AddrFieldParts(start, end);
    ParseHexRoundTrip(start, 8);
    ParseHexRoundTrip(end, 8);
    ParseHexRoundTrip(offset, 8);
  }

  lemma LeadingValid(v: Vma, g: Gaps)
    requires WellFormed(v) && g.g1 >= 1 && g.g2 >= 1 && g.g3 >= 1 && g.g4 >= 1
    ensures ValidSpaced(Leading(v, g)) && (SingleGaps(Leading(v, g)) <==> g == PROCFS)
  {
    hide AddrField, PaddedHex;
    AddrFieldParts(v.start, v.end);
    ParseHexRoundTrip(v.offset, 8);
    var o := PaddedHex(v.offset, 8);
    forall i | 0 <= i < |o| ensures o[i] != ' ' { HexHasNoSign(o[i]); }
    var ps := Leading(v, g);
    assert ps[0].gap == g.g1 && ps[1].gap == g.g2 && ps[2].gap == g.g3 && ps[3].gap == g.g4;
  }

  lemma {:induction false} BuildEnds(ps: seq<Spaced>, last: string, k: nat)
    requires ps != [] && ValidSpaced(ps) && last != []
    ensures var s := Build(ps, last);
            s != [] && s[0] == ps[0].token[0] && s[|s| - 1] == last[|last| - 1]
            && Build(ps, last + Blanks(k)) == s + Blanks(k)
    decreases |ps|
  {
    var rest := ps[1..];
    if rest == [] {
      assert Build(rest, last) == last && Build(rest, last + Blanks(k)) == last + Blanks(k);
    } else {
      BuildEnds(rest, last, k);
    }
    var head := ps[0].token + Blanks(ps[0].gap);
    assert head + (Build(rest, last) + Blanks(k)) == (head + Build(rest, last)) + Blanks(k);
  }

  /** The trimmed line, and the end of the line that remains of it. */
  lemma TrimmedLine(v: Vma, g: Gaps)
    requires WellFormed(v) && g.g1 >= 1 && g.g2 >= 1 && g.g3 >= 1 && g.g4 >= 1
    ensures var last := if v.path == [] then v.inode else v.inode + Blanks(v.pad) + v.path;
            Trim(PrintLine(v, g)) == Build(Leading(v, g), last) != []
  {
    hide Leading;
    var ps := Leading(v, g);
    LeadingValid(v, g);
    assert ps != [] && ps[0].token == AddrField(v.start, v.end) by { FirstIsAddr(v, g); }
    AddrFieldParts(v.start, v.end);
    if v.path == [] {
      assert v.inode + Blanks(v.pad) + v.path == v.inode + Blanks(v.pad);
      BuildEnds(ps, v.inode, v.pad);
      TrimTight(Build(ps, v.inode), v.pad);
    } else {
      var last := v.inode + Blanks(v.pad) + v.path;
      assert last[|last| - 1] == v.path[|v.path| - 1];
      BuildEnds(ps, last, 0);
      TrimTight(Build(ps, last), 0);
    }
  }

  lemma FirstIsAddr(v: Vma, g: Gaps)
    ensures Leading(v, g) != [] && Leading(v, g)[0].token == AddrField(v.start, v.end)
  {
  }

  /** The last two pieces of a line. */
  lemma LastPieces(v: Vma)
    requires WellFormed(v)
    ensures var last := if v.path == [] then v.inode else v.inode + Blanks(v.pad) + v.path;
            Tokens(last, 2) == if v.path == [] then [v.inode] else [v.inode, Blanks(v.pad - 1) + v.path]
  {
    if v.path == [] {
      NoSplit(v.inode, 2);
    } else {
      TokenThenGap(Spaced(v.inode, v.pad), v.path, 2);
      if v.pad == 1 {
        NoSplit(v.path, 1);
        assert Blanks(0) + v.path == v.path;
      }
    }
  }

  /** The text fields of a line printed with single spaces. */
  lemma PrintedFields(v: Vma)
    requires WellFormed(v)
    ensures FieldsOf(Trim(PrintLine(v, PROCFS))) ==
            Success(Fields(AddrField(v.start, v.end), v.perms, PaddedHex(v.offset, 8), v.path))
  {
    hide AddrField, PaddedHex, Build, Tokens, Trim;
    var ps := Leading(v, PROCFS);
    var last := if v.path == [] then v.inode else v.inode + Blanks(v.pad) + v.path;
    LeadingValid(v, PROCFS);
    TrimmedLine(v, PROCFS);
    TokensOfBuild(ps, last);
    LastPieces(v);
    if v.path != [] {
      TrimTight(v.path, v.pad - 1);
    }
    var ts := TokenList(ps);
    assert ts == [AddrField(v.start, v.end), v.perms, PaddedHex(v.offset, 8), v.dev];
  }

  /** The mapping that a printed line describes. */
  function RegionOfVma(v: Vma): Region {
    Region(v.start, v.end, v.perms, Backing(v.path), v.offset, Classify(v.path), [], 0)
  }

  /** Parsing a line as procfs prints it, with any padding before the path, gives back its fields. */
  lemma ParsePrinted(v: Vma)
    requires WellFormed(v)
    ensures ParseMapsLine(PrintLine(v, PROCFS)) == Success(Some(RegionOfVma(v)))
  {
    hide AddrField, PaddedHex, PrintLine, Build, Tokens, FieldsOf, RegionFrom;
    TrimmedLine(v, PROCFS);
    PrintedFields(v);
    NumbersChecked(v.start, v.end, v.offset, v.perms, v.path);
  }

  /** The type that a path stands for: its name in brackets, a file, no path at all, or anything else. */
  ghost predicate TypedAs(path: string, t: string) {
    (t == "heap" <==> path == "[heap]") && (t == "stack" <==> path == "[stack]") && (t == "vdso" <==> path == "[vdso]")
    && (t == "vsyscall" <==> path == "[vsyscall]") && (t == "vvar" <==> path == "[vvar]")
    && (t == "file" <==> path != [] && path[0] == '/') && (t == "anon" <==> path == [])
    && t in {"heap", "stack", "vdso", "vsyscall", "vvar", "file", "anon", "other"}
  }

  lemma TypeOfPath(path: string)
    ensures TypedAs(path, Classify(path))
  {
    assert "[heap]"[0] == '[' && "[stack]"[0] == '[' && "[vdso]"[0] == '[';
    assert "[vsyscall]"[0] == '[' && "[vvar]"[0] == '[';
    assert "[heap]"[1] == 'h' && "[stack]"[1] == 's' && "[vdso]"[1] == 'v';
    assert "[vsyscall]"[1] == 'v' && "[vvar]"[1] == 'v';
    assert "heap"[0] == 'h' && "stack"[0] == 's' && "file"[0] == 'f' && "anon"[0] == 'a' && "other"[0] == 'o';
    assert |"vdso"| == 4 && |"vsyscall"| == 8 && "vdso"[1] == 'd' && "vvar"[1] == 'v';
  }

  /** What the parser makes of a line as procfs prints it, field by field. */
  lemma ParsedFields(v: Vma)
    requires WellFormed(v)
    ensures var p := ParseMapsLine(PrintLine(v, PROCFS));
            p.Success? && p.value.Some?
            && var r := p.value.value;
               r.start == v.start && r.end == v.end && r.perms == v.perms && r.offset == v.offset
               && r.data == [] && r.checksum == 0 && TypedAs(v.path, r.regionType)
               && (r.backingFile == Some(v.path) <==> v.path != [] && (v.path[0] == '/' || v.path[0] == '.'))
               && (r.backingFile == None <==> v.path == [] || (v.path[0] != '/' && v.path[0] != '.'))
  {
    hide ParseMapsLine, PrintLine, TypedAs, Classify;
    ParsePrinted(v);
    TypeOfPath(v.path);
  }

  /** Which field a short line is said to miss, and what an address without a dash is called. */
  lemma ShortLines(a: string, k: nat, b: string)
    requires a != [] && NoSpaceChar(a) && b != [] && NoSpaceChar(b) && 1 <= k <= 4
    ensures FieldsOf(a) == Failure(MissingPerms) && FieldsOf(a + Blanks(k) + b) == Failure(MissingOffset)
  {
    NoSplit(a, 6);
    NoSplit(b, 6 - k);
    TokenThenGap(Spaced(a, k), b, 6);
  }

  lemma NoDashIsMalformed(f: Fields)
    ensures RegionFrom(f) == Failure(MalformedRange) <==> '-' !in f.addr
  {
  }

  /** One plus sign may come first, and there must be a digit. */
  lemma SignsAndNothing(s: string)
    ensures ParseHex("") == None && ParseHex("+") == None
    ensures s != [] && s[0] != '+' ==> ParseHex("+" + s) == ParseHex(s) && ParseHex("++" + s) == None
  {
    var plus := "+" + s;
    assert plus[1..] == s && ("++" + s)[1..] == plus && "+"[1..] == [];
    assert HexDigit('+') == None;
  }

  /** With any other spacing between the first five fields the path is lost: the parser recovers a
      nonempty path if and only if those fields are separated by single spaces. */
  lemma PathRecoveredIff(v: Vma, g: Gaps)
    requires WellFormed(v) && v.path != [] && g.g1 >= 1 && g.g2 >= 1 && g.g3 >= 1 && g.g4 >= 1
    ensures var f := FieldsOf(Trim(PrintLine(v, g)));
            (f.Success? && f.value.path == v.path) <==> g == PROCFS
  {
    hide AddrField, PaddedHex, Build, Tokens, Trim, Leading;
    if g == PROCFS {
      PrintedFields(v);
    } else {
      var ps := Leading(v, g);
      var last := v.inode + Blanks(v.pad) + v.path;
      LeadingValid(v, g);
      TrimmedLine(v, g);
      assert |ps| == 4 by { FourFields(v, g); }
      TokensOfBuild(ps, last);
    }
  }

  /** The spacing shown in the parser's own documentation, two blanks between fields, loses the path. */
  lemma TwoBlanksLosePath()
    ensures var v := Vma(0x7f00_0000_1000, 0x7f00_0000_2000, "r--p", 0x1000, "08:01", "1234", 2, "/lib/libc.so.6");
            var f := FieldsOf(Trim(PrintLine(v, Gaps(2, 2, 2, 2))));
            WellFormed(v) && (f.Success? ==> f.value.path != v.path)
  {
    var v := Vma(0x7f00_0000_1000, 0x7f00_0000_2000, "r--p", 0x1000, "08:01", "1234", 2, "/lib/libc.so.6");
    PathRecoveredIff(v, Gaps(2, 2, 2, 2));
  }

  lemma FourFields(v: Vma, g: Gaps)
    ensures |Leading(v, g)| == 4
  {
  }

  /** A file of printed lines parses to its mappings, in order. */
  lemma {:induction false} ParsePrintedFile(vs: seq<Vma>)
    requires forall i | 0 <= i < |vs| :: WellFormed(vs[i])
    ensures ParsedLines(PrintedFile(vs)) == MappedRegions(vs)
  {
    hide ParseMapsLine, PrintLine;
    if vs != [] {
      ParsePrinted(vs[0]);
      ParsePrintedFile(vs[1..]);
      assert PrintedFile(vs)[1..] == PrintedFile(vs[1..]);
      assert MappedRegions(vs) == [RegionOfVma(vs[0])] + MappedRegions(vs[1..]);
    }
  }

  function PrintedFile(vs: seq<Vma>): (lines: seq<string>)
    ensures |lines| == |vs|
  {
    seq(|vs|, i requires 0 <= i < |vs| => PrintLine(vs[i], PROCFS))
  }

  function MappedRegions(vs: seq<Vma>): (rs: seq<Region>)
    ensures |rs| == |vs|
  {
    seq(|vs|, i requires 0 <= i < |vs| => RegionOfVma(vs[i]))
  }

  /** What the capturer skips, in terms of the line that the kernel printed. */
  lemma SkippedVmas(v: Vma)
    requires v.start <= v.end
    ensures ShouldSkip(RegionOfVma(v)) <==>
            v.start == v.end || v.perms == [] || v.perms[0] != 'r' || v.path == "[vsyscall]" || v.path == "[vvar]"
  {
  }
}
