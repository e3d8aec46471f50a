/** The argument that describes an app to the launcher: printed by Python, scanned by C. */
module LauncherArgs {
  import opened Arith
  import opened Bytes
  import opened Hex
  import opened Wrappers

  datatype Kind = TextKind | HexKind | DecKind

  /** A field of the argument: a text, a number printed as 0x and hex digits, or a decimal digit. */
  datatype Field = Text(text: string) | Number(n: nat) | Flag(d: nat)

  function KindOf(f: Field): Kind {
    match f
    case Text(_) => TextKind
    case Number(_) => HexKind
    case Flag(_) => DecKind
  }

  function KindsOf(fields: seq<Field>): seq<Kind> {
    if fields == [] then [] else [KindOf(fields[0])] + KindsOf(fields[1..])
  }

  // ----- the printer

  /** Hex digits of a number, in lower case and without leading zeros. */
  function HexDigits(n: nat): (text: string)
    ensures |text| > 0 && IsHex(text)
  {
    if n < 16 then [Digit(n, false)] else HexDigits(n / 16) + [Digit(n % 16, false)]
  }

  function PrintField(f: Field): string {
    match f
    case Text(text) => text
    case Number(n) => "0x" + HexDigits(n)
    case Flag(d) => if d < 10 then ['0' + d as char] else "?"
  }

  /** The fields separated by colons. */
  function PrintAll(fields: seq<Field>): string {
    if fields == [] then ""
    else if |fields| == 1 then PrintField(fields[0])
    else PrintField(fields[0]) + ":" + PrintAll(fields[1..])
  }

  // ----- the scanner

  /** Length of the longest prefix whose characters all satisfy p. */
  function Span(text: string, p: char -> bool): (n: nat)
    ensures n <= |text|
  {
    if text == "" || !p(text[0]) then 0 else 1 + Span(text[1..], p)
  }

  /** A run ends where the characters stop satisfying p. */
  lemma {:induction false} SpanOfRun(run: string, rest: string, p: char -> bool)
    requires forall i :: 0 <= i < |run| ==> p(run[i])
    requires rest == "" || !p(rest[0])
    ensures Span(run + rest, p) == |run|
    decreases |run|
  {
    if run == "" {
      assert run + rest == rest;
    } else {
      assert (run + rest)[1..] == run[1..] + rest;
      SpanOfRun(run[1..], rest, p);
    }
  }

  const NOT_COLON := (c: char) => c != ':'
  const HEX_DIGIT := (c: char) => DigitValue(c).Some?
  const DEC_DIGIT := (c: char) => '0' <= c <= '9'

  /** The number written by hex digits. */
  function HexValue(text: string): (n: nat)
    requires forall i :: 0 <= i < |text| ==> DigitValue(text[i]).Some?
  {
    if text == "" then 0
    else 16 * HexValue(text[..|text| - 1]) + DigitValue(text[|text| - 1]).value
  }

  lemma {:induction false} HexValueOfDigits(n: nat)
    ensures HexValue(HexDigits(n)) == n
  {
    if n >= 16 {
      HexValueOfDigits(n / 16);
      assert HexDigits(n)[..|HexDigits(n)| - 1] == HexDigits(n / 16);
    }
  }

  lemma {:induction false} SpanSatisfies(text: string, p: char -> bool)
    ensures forall i :: 0 <= i < Span(text, p) ==> p(text[i])
    decreases |text|
  {
    if text != "" && p(text[0]) {
      SpanSatisfies(text[1..], p);
      forall i | 1 <= i < Span(text, p)
        ensures p(text[i])
      {
        assert text[i] == text[1..][i - 1];
      }
    }
  }

  /** Unsigned longs have 32 bits on the emulated machine; strtoul saturates. */
  const ULONG_MAX := 0xFFFF_FFFF

  /** One conversion of the format: `%[^:]`, `0x%lx` or `%d`; None when it fails. */
  function ScanField(kind: Kind, s: string): (r: Option<(Field, string)>)
    ensures r.Some? ==> KindOf(r.value.0) == kind
  {
    match kind
    case TextKind =>
      var n := Span(s, NOT_COLON);
      if n == 0 then None else Some((Text(s[..n]), s[n..]))
    case HexKind =>
      if |s| < 2 || s[..2] != "0x" then None
      else
        var n := Span(s[2..], HEX_DIGIT);
        SpanSatisfies(s[2..], HEX_DIGIT);
        if n == 0 then None else Some((Number(Min(HexValue(s[2..2 + n]), ULONG_MAX)), s[2 + n..]))
    case DecKind =>
      var n := Span(s, DEC_DIGIT);
      SpanSatisfies(s, DEC_DIGIT);
      if n == 0 then None else Some((Flag(DecValue(s[..n])), s[n..]))
  }

  function DecValue(text: string): nat
    requires forall i :: 0 <= i < |text| ==> '0' <= text[i] <= '9'
  {
    if text == "" then 0 else 10 * DecValue(text[..|text| - 1]) + (text[|text| - 1] as int - '0' as int)
  }

  /** sscanf: the conversions that succeed, up to the first that fails or the first missing colon. */
  function Scan(kinds: seq<Kind>, s: string): (fields: seq<Field>)
    ensures |fields| <= |kinds|
    ensures forall i :: 0 <= i < |fields| ==> KindOf(fields[i]) == kinds[i]
  {
    if kinds == [] then []
    else
      match ScanField(kinds[0], s)
      case None => []
      case Some((f, rest)) =>
        if rest == "" || rest[0] != ':' then [f] else [f] + Scan(kinds[1..], rest[1..])
  }

  /** What the scanner makes of a field. */
  function Saturated(f: Field): Field {
    if f.Number? then Number(Min(f.n, ULONG_MAX)) else f
  }

  function SaturatedAll(fields: seq<Field>): (r: seq<Field>)
    ensures |r| == |fields|
    ensures forall i :: 0 <= i < |fields| ==> r[i] == Saturated(fields[i])
  {
    seq(|fields|, i requires 0 <= i < |fields| => Saturated(fields[i]))
  }

  predicate ColonFree(text: string) {
    forall i :: 0 <= i < |text| ==> text[i] != ':'
  }

  /** Texts without a colon and one-digit flags, which is all the printer is given. */
  predicate Printable(f: Field) {
    match f
    case Text(text) => ColonFree(text)
    case Number(_) => true
    case Flag(d) => d < 10
  }

  lemma ScanPrintedText(text: string, rest: string)
    requires ColonFree(text) && (rest == "" || rest[0] == ':')
    ensures ScanField(TextKind, text + rest) == if text == "" then None else Some((Text(text), rest))
  {
    SpanOfRun(text, rest, NOT_COLON);
    assert (text + rest)[..|text|] == text && (text + rest)[|text|..] == rest;
  }

  lemma ScanPrintedNumber(n: nat, rest: string)
    requires rest == "" || rest[0] == ':'
    ensures ScanField(HexKind, "0x" + HexDigits(n) + rest) == Some((Number(Min(n, ULONG_MAX)), rest))
  {
    var digits := HexDigits(n);
    HexValueOfDigits(n);
    HexSpan(digits, rest);
    PrefixedParts(digits, rest);
    hide HexValue, HexDigits, Span, DigitValue;
  }

  lemma HexSpan(digits: string, rest: string)
    requires IsHex(digits) && (rest == "" || rest[0] == ':')
    ensures Span(digits + rest, HEX_DIGIT) == |digits|
  {
    SpanOfRun(digits, rest, HEX_DIGIT);
  }

  lemma PrefixedParts(digits: string, rest: string)
    ensures var s := "0x" + digits + rest;
      && |s| >= 2 && s[..2] == "0x" && s[2..] == digits + rest
      && s[2..2 + |digits|] == digits && s[2 + |digits|..] == rest
  {
  }

  lemma ScanPrintedFlag(d: nat, rest: string)
    requires d < 10 && (rest == "" || rest[0] == ':')
    ensures ScanField(DecKind, ['0' + d as char] + rest) == Some((Flag(d), rest))
  {
    var digit := ['0' + d as char];
    SpanOfRun(digit, rest, DEC_DIGIT);
    assert (digit + rest)[..1] == digit && (digit + rest)[1..] == rest;
    assert digit[..0] == "" && DecValue(digit) == d;
  }

  lemma ScanPrintedField(f: Field, rest: string)
    requires Printable(f) && (rest == "" || rest[0] == ':')
    ensures ScanField(KindOf(f), PrintField(f) + rest)
      == if f == Text("") then None else Some((Saturated(f), rest))
  {
    hide ScanField;
    match f
    case Text(text) => ScanPrintedText(text, rest);
    case Number(n) => ScanPrintedNumber(n, rest);
    case Flag(d) => ScanPrintedFlag(d, rest);
  }

  /** Scanning a printed list: the first field, then the others if it is not an empty text. */
  lemma ScanPrintedHead(fields: seq<Field>)
    requires fields != [] && Printable(fields[0])
    ensures Scan(KindsOf(fields), PrintAll(fields)) ==
      if fields[0] == Text("") then []
      else [Saturated(fields[0])] + Scan(KindsOf(fields[1..]), PrintAll(fields[1..]))
  {
    var rest := if |fields| == 1 then "" else ":" + PrintAll(fields[1..]);
    PrintedHead(fields);
    KindsHead(fields);
    assert KindsOf(fields)[1..] == KindsOf(fields[1..]);
    ScanPrintedField(fields[0], rest);
    hide ScanField, PrintField, Saturated, PrintAll, KindOf, KindsOf;
    if |fields| > 1 {
      assert rest[1..] == PrintAll(fields[1..]);
    }
  }

  lemma PrintedHead(fields: seq<Field>)
    requires fields != []
    ensures PrintAll(fields) == PrintField(fields[0]) + if |fields| == 1 then "" else ":" + PrintAll(fields[1..])
  {
    hide PrintField;
    var first := PrintField(fields[0]);
    if |fields| == 1 {
      assert first + "" == first;
    } else {
      var others := PrintAll(fields[1..]);
      assert first + ":" + others == first + (":" + others);
    }
  }

  lemma KindsHead(fields: seq<Field>)
    requires fields != []
    ensures KindsOf(fields) == [KindOf(fields[0])] + KindsOf(fields[1..])
    ensures |fields| == 1 ==> KindsOf(fields[1..]) == []
  {
    hide KindOf;
    if |fields| == 1 {
      assert fields[1..] == [];
    }
  }

  /** Scanning what was printed gives every field back, numbers saturated, if no text is empty. */
  lemma {:induction false} ScanPrinted(fields: seq<Field>)
    requires forall f :: f in fields ==> Printable(f) && f != Text("")
    ensures Scan(KindsOf(fields), PrintAll(fields)) == SaturatedAll(fields)
    decreases |fields|
  {
    hide Scan, PrintAll, KindsOf, Saturated, Printable;
    if fields == [] {
      ScanNothing();
    } else {
      ScanPrintedHead(fields);
      ScanPrinted(fields[1..]);
      assert SaturatedAll(fields) == [Saturated(fields[0])] + SaturatedAll(fields[1..]);
    }
  }

  lemma ScanNothing()
    ensures Scan(KindsOf([]), PrintAll([])) == []
  {
  }

  /** An empty text stops the scanner before the end. */
  lemma {:induction false} ScanStopsAtEmptyText(fields: seq<Field>, k: nat)
    requires forall f :: f in fields ==> Printable(f)
    requires k < |fields| && fields[k] == Text("")
    ensures |Scan(KindsOf(fields), PrintAll(fields))| < |fields|
    decreases |fields|
  {
    ScanPrintedHead(fields);
    hide Scan, PrintAll, KindsOf, KindOf, Saturated, Printable, PrintField;
    if fields[0] != Text("") {
      var tail := fields[1..];
      assert tail[k - 1] == Text("");
      ScanStopsAtEmptyText(tail, k - 1);
    }
  }

  // ----- the app record

  datatype ElfInfo = ElfInfo(
    textOffset: nat, textSize: nat, stackAddr: nat, stackSize: nat, svcCallAddr: nat, svcCxCallAddr: nat,
    textAddr: nat, fontsAddr: nat, fontsSize: nat, nvramAddr: nat, nvramSize: nat)

  datatype AppRecord = AppRecord(
    name: string, path: string, elf: ElfInfo, loadNvram: bool, saveNvram: bool, useNbgl: bool,
    derivationPath: seq<byte>)

  /** The conversions of the launcher's format. */
  function FormatKind(i: nat): Kind {
    if i < 2 then TextKind else if i < 13 then HexKind else if i < 16 then DecKind else TextKind
  }

  function Format(): seq<Kind> {
    seq(17, i requires 0 <= i => FormatKind(i))
  }

  /** Seventeen fields of the kinds of the format. */
  predicate WellTyped(f: seq<Field>) {
    && |f| == 17 && f[0].Text? && f[1].Text? && f[16].Text?
    && (forall i :: 2 <= i < 13 ==> f[i].Number?)
    && (forall i :: 13 <= i < 16 ==> f[i].Flag?)
  }

  /** The fields of an argument; None when sscanf does not convert all seventeen. */
  function Scanned(arg: string): (fields: Option<seq<Field>>)
    ensures fields.Some? ==> WellTyped(fields.value)
  {
    var fields := Scan(Format(), arg);
    if |fields| != 17 then None
    else
      assert forall i :: 0 <= i < 17 ==> KindOf(fields[i]) == FormatKind(i);
      Some(fields)
  }

  function Bit(b: bool): Field {
    Flag(if b then 1 else 0)
  }

  function ElfFields(e: ElfInfo): seq<Field> {
    [Number(e.textOffset), Number(e.textSize), Number(e.stackAddr), Number(e.stackSize),
     Number(e.svcCallAddr), Number(e.svcCxCallAddr), Number(e.textAddr), Number(e.fontsAddr),
     Number(e.fontsSize), Number(e.nvramAddr), Number(e.nvramSize)]
  }

  /** The text of a derivation path; "0" stands for none. */
  function PathText(path: seq<byte>): string {
    if |path| > 0 then Print(path, _ => false) else "0"
  }

  function Fields(r: AppRecord): (fields: seq<Field>)
    ensures |fields| == 17
  {
    [Text(r.name), Text(r.path)] + ElfFields(r.elf)
      + [Bit(r.loadNvram), Bit(r.saveNvram), Bit(r.useNbgl), Text(PathText(r.derivationPath))]
  }

  /** The argument given to the launcher. */
  function PrintArgument(r: AppRecord): string {
    PrintAll(Fields(r))
  }

  /** `%2hhx`: one or two hex digits; None when there is none, and then nothing is stored. */
  function ScanByte(text: string, i: nat): (b: Option<byte>)
    requires i < |text|
  {
    if DigitValue(text[i]).None? then None
    else if i + 1 < |text| && DigitValue(text[i + 1]).Some?
    then Some(16 * DigitValue(text[i]).value + DigitValue(text[i + 1]).value)
    else Some(DigitValue(text[i]).value)
  }

  /** Byte k of the buffer after the conversion of the path text: what is not converted stays. */
  function PathByte(text: string, before: seq<byte>, k: nat): byte {
    if |text| <= 1 || 2 * k >= |text| || ScanByte(text, 2 * k).None? then if k < |before| then before[k] else 0
    else ScanByte(text, 2 * k).value
  }

  /** The derivation path read from its text. */
  function PathBytes(text: string, before: seq<byte>): seq<byte> {
    if |text| > 1 then seq(|text| / 2, k requires 0 <= k => PathByte(text, before, k)) else []
  }

  /** The record read from seventeen scanned fields. */
  function ToRecord(fields: seq<Field>, path: seq<byte>): AppRecord
    requires WellTyped(fields)
  {
    AppRecord(
      fields[0].text, fields[1].text,
      ElfInfo(fields[2].n, fields[3].n, fields[4].n, fields[5].n, fields[6].n, fields[7].n, fields[8].n,
              fields[9].n, fields[10].n, fields[11].n, fields[12].n),
      fields[13].d == 1, fields[14].d == 1, fields[15].d != 0, path)
  }

  /** The record read from an argument into a buffer. */
  function Parsed(arg: string, before: seq<byte>): Option<AppRecord> {
    match Scanned(arg)
    case None => None
    case Some(fields) => Some(ToRecord(fields, PathBytes(fields[16].text, before)))
  }

  predicate FitsUlong(e: ElfInfo) {
    && e.textOffset < 0x1_0000_0000 && e.textSize < 0x1_0000_0000 && e.stackAddr < 0x1_0000_0000 && e.stackSize < 0x1_0000_0000
    && e.svcCallAddr < 0x1_0000_0000 && e.svcCxCallAddr < 0x1_0000_0000 && e.textAddr < 0x1_0000_0000
    && e.fontsAddr < 0x1_0000_0000 && e.fontsSize < 0x1_0000_0000 && e.nvramAddr < 0x1_0000_0000 && e.nvramSize < 0x1_0000_0000
  }

  lemma FieldsMatchFormat(r: AppRecord)
    ensures KindsOf(Fields(r)) == Format()
  {
    KindsAt(Fields(r));
  }

  lemma {:induction false} KindsAt(fields: seq<Field>)
    ensures |KindsOf(fields)| == |fields|
    ensures forall i :: 0 <= i < |fields| ==> KindsOf(fields)[i] == KindOf(fields[i])
    decreases |fields|
  {
    if fields != [] {
      KindsAt(fields[1..]);
    }
  }

  /** The path text is never empty and has no colon. */
  lemma PathTextIsText(path: seq<byte>)
    ensures PathText(path) != "" && ColonFree(PathText(path)) && IsHex(PathText(path))
    ensures |PathText(path)| <= Max(1, 2 * |path|)
  {
    if |path| > 0 {
      DecodePrinted(path, _ => false);
    }
    HexIsColonFree(PathText(path));
  }

  lemma HexIsColonFree(text: string)
    requires IsHex(text) || text == "0"
    ensures IsHex(text) && ColonFree(text)
  {
    forall i | 0 <= i < |text|
      ensures DigitValue(text[i]).Some? && text[i] != ':'
    {
    }
  }

  /** Hex text is decoded, whatever was in the buffer. */
  lemma HexPathBytes(text: string, before: seq<byte>)
    requires IsHex(text)
    ensures PathBytes(text, before) == if |text| > 1 then Decode(text) else []
  {
    hide DigitValue;
    forall k | 0 <= k < |text| / 2
      ensures |text| > 1 ==> PathByte(text, before, k) == PairValue(text, k)
    {
    }
  }

  /** The path text reads back as the path. */
  lemma PathTextReads(path: seq<byte>, before: seq<byte>)
    ensures PathBytes(PathText(path), before) == path
  {
    PathTextIsText(path);
    HexPathBytes(PathText(path), before);
    if |path| > 0 {
      DecodePrinted(path, _ => false);
    }
  }

  /** Printing an app record and parsing it back returns the same record exactly when name and path are
      not empty and every number has 32 bits, for colon-free names and paths. */
  lemma RecordRoundTrip(r: AppRecord, before: seq<byte>)
    requires ColonFree(r.name) && ColonFree(r.path)
    ensures Parsed(PrintArgument(r), before) == Some(r) <==> r.name != "" && r.path != "" && FitsUlong(r.elf)
  {
    var fields := Fields(r);
    hide Fields, ToRecord, PathBytes, FitsUlong, Scan, PrintAll, Format;
    FirstFields(r);
    if r.name != "" && r.path != "" {
      ScanArgument(r);
      SaturatedRecord(r, before);
    } else {
      FieldsMatchFormat(r);
      FieldsArePrintable(r);
      ScanStopsAtEmptyText(fields, if r.name == "" then 0 else 1);
    }
  }

  lemma FirstFields(r: AppRecord)
    ensures Fields(r)[0] == Text(r.name) && Fields(r)[1] == Text(r.path)
    ensures Fields(r)[16] == Text(PathText(r.derivationPath))
  {
  }

  /** What the scanner finds in a printed record. */
  lemma ScanArgument(r: AppRecord)
    requires ColonFree(r.name) && ColonFree(r.path) && r.name != "" && r.path != ""
    ensures Scanned(PrintArgument(r)) == Some(SaturatedAll(Fields(r)))
  {
    FieldsMatchFormat(r);
    FieldsArePrintable(r);
    hide Fields, Scan, PrintAll, Format, KindsOf, Printable;
    ScanPrinted(Fields(r));
  }

  lemma FieldsArePrintable(r: AppRecord)
    requires ColonFree(r.name) && ColonFree(r.path)
    ensures forall f :: f in Fields(r) ==> Printable(f)
    ensures r.name != "" && r.path != "" ==> forall f :: f in Fields(r) ==> f != Text("")
  {
    var path := PathText(r.derivationPath);
    PathTextIsText(r.derivationPath);
    hide PathText, ColonFree, IsHex;
    forall i | 0 <= i < 17
      ensures Printable(Fields(r)[i])
      ensures r.name != "" && r.path != "" ==> Fields(r)[i] != Text("")
    {
      if i == 0 {
        assert Fields(r)[i] == Text(r.name);
      } else if i == 1 {
        assert Fields(r)[i] == Text(r.path);
      } else if i == 16 {
        assert Fields(r)[i] == Text(path);
      } else {
        NumbersAndFlags(r, i);
      }
    }
  }

  lemma NumbersAndFlags(r: AppRecord, i: nat)
    requires 2 <= i < 16
    ensures Fields(r)[i].Number? || (Fields(r)[i].Flag? && Fields(r)[i].d < 10)
  {
    hide PathText;
  }

  /** The order of the fields. */
  lemma FieldsInOrder(r: AppRecord)
    ensures var f := Fields(r);
      && f[0] == Text(r.name) && f[1] == Text(r.path)
      && f[2] == Number(r.elf.textOffset) && f[3] == Number(r.elf.textSize)
      && f[4] == Number(r.elf.stackAddr) && f[5] == Number(r.elf.stackSize)
      && f[6] == Number(r.elf.svcCallAddr) && f[7] == Number(r.elf.svcCxCallAddr)
      && f[8] == Number(r.elf.textAddr) && f[9] == Number(r.elf.fontsAddr) && f[10] == Number(r.elf.fontsSize)
      && f[11] == Number(r.elf.nvramAddr) && f[12] == Number(r.elf.nvramSize)
      && f[13] == Flag(if r.loadNvram then 1 else 0) && f[14] == Flag(if r.saveNvram then 1 else 0)
      && f[15] == Flag(if r.useNbgl then 1 else 0) && f[16] == Text(PathText(r.derivationPath))
  {
    hide PathText;
  }

  lemma SaturatedRecord(r: AppRecord, before: seq<byte>)
    ensures var s := SaturatedAll(Fields(r));
      WellTyped(s) && (ToRecord(s, PathBytes(s[16].text, before)) == r <==> FitsUlong(r.elf))
  {
    PathTextReads(r.derivationPath, before);
    hide PathText, PathBytes;
  }

  // ----- the parser of the launcher

  const DERIVATION_PATH_MAX_LEN := 256

  /** Convert the path text into the buffer of the record. */
  method ConvertPath(text: string, dst: array<byte>) returns (length: nat)
    requires |text| <= 2 * dst.Length
    modifies dst
    ensures length <= dst.Length && dst[..length] == PathBytes(text, old(dst[..]))
    ensures forall k :: 0 <= k < dst.Length ==> dst[k] == PathByte(text, old(dst[..]), k)
    ensures forall k :: 0 <= k < dst.Length && 2 * k < |text| && |text| > 1 ==>
      dst[k] == if DigitValue(text[2 * k]).None? then old(dst[k])
                else if 2 * k + 1 < |text| && DigitValue(text[2 * k + 1]).Some?
                then 16 * DigitValue(text[2 * k]).value + DigitValue(text[2 * k + 1]).value
                else DigitValue(text[2 * k]).value
  {
    if |text| <= 1 {
      return 0;
    }
    ghost var before := dst[..];
    hide ScanByte;
    var i := 0;
    while i < |text|
      invariant 0 <= i <= |text| + 1 && i % 2 == 0
      invariant forall k :: 0 <= k < dst.Length ==>
        dst[k] == if k < i / 2 then PathByte(text, before, k) else before[k]
    {
      var b := ScanByte(text, i);
      if b.Some? {
        dst[i / 2] := b.value;
      }
      assert PathByte(text, before, i / 2) == dst[i / 2];
      i := i + 2;
    }
    return |text| / 2;
  }

  /** Parse the argument into a record whose path buffer is the caller's, which uses the same one for all
      apps; None when it has not seventeen fields.  A path text longer than the buffer would write
      past its end. */
  method ParseAppInfos(arg: string, path: array<byte>) returns (r: Option<AppRecord>)
    requires path.Length == DERIVATION_PATH_MAX_LEN
    requires Scanned(arg).Some? ==> |Scanned(arg).value[16].text| <= 2 * DERIVATION_PATH_MAX_LEN
    modifies path
    ensures r == Parsed(arg, old(path[..]))
    ensures r.Some? ==> var f := Scanned(arg).value;
      && r.value.loadNvram == (f[13].d == 1) && r.value.saveNvram == (f[14].d == 1) && r.value.useNbgl == (f[15].d != 0)
  {
    hide PathBytes, PathByte;
    var scanned := Scanned(arg);
    if scanned.None? {
      return None;
    }
    var fields := scanned.value;
    var length := ConvertPath(fields[16].text, path);
    var elf := ElfInfo(fields[2].n, fields[3].n, fields[4].n, fields[5].n, fields[6].n, fields[7].n, fields[8].n,
                       fields[9].n, fields[10].n, fields[11].n, fields[12].n);
    r := Some(AppRecord(fields[0].text, fields[1].text, elf, fields[13].d == 1, fields[14].d == 1, fields[15].d != 0,
                        path[..length]));
  }

  /** The launcher gets the record that was printed, for derivation paths of up to 256 bytes. */
  method PassRecord(r: AppRecord, path: array<byte>) returns (received: Option<AppRecord>)
    requires path.Length == 256
    requires ColonFree(r.name) && ColonFree(r.path) && r.name != "" && r.path != "" && FitsUlong(r.elf)
    requires |r.derivationPath| <= 256
    modifies path
    ensures received == Some(r)
  {
    ScanArgument(r);
    RecordRoundTrip(r, path[..]);
    FirstFields(r);
    PathTextIsText(r.derivationPath);
    hide Scanned, Fields, Parsed, PathText;
    received := ParseAppInfos(PrintArgument(r), path);
  }
}
