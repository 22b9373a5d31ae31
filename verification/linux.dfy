/** The Linux backend of the memory layer (src/memory/linux.rs): finding the
    target by name under /proc, parsing /proc/<pid>/maps into regions,
    scanning the regions for a signature, and targeted reads. The /proc
    filesystem and the `process_vm_readv` system call are inputs. */
module Linux {
  import opened MemoryBase
  import opened Strings
  import opened SignatureSearch

  // =====================================================================
  // The /proc filesystem, as seen by `find_process` and `read_regions`
  // =====================================================================

  /** The outcome of `fs::read_to_string` on one file. */
  datatype FileRead = Unreadable(code: int) | Contents(text: string)

  /** What `find_process` consults for one entry of /proc: whether it is a
      directory, whether it has a `cmdline` file, and the two files' contents. */
  datatype ProcEntry = ProcEntry(isDir: bool, hasCmdline: bool, cmdline: FileRead, stat: FileRead)

  /** One item of the `fs::read_dir("/proc")` iterator. */
  datatype DirItem = BadItem(code: int) | Item(entry: ProcEntry)

  /** The outcome of `fs::read_dir("/proc")`. */
  datatype Listing = ListFailed(code: int) | Listed(items: seq<DirItem>)

  // =====================================================================
  // find_process: specification
  // =====================================================================

  /** The first space-separated token of a command line. */
  function CommandName(cmdline: string): string
  {
    Split(cmdline, ' ')[0]
  }

  /** The scan moves past this item: it is a directory-less or cmdline-less
      entry, or its command name does not contain `name`. */
  predicate Passes(name: string, item: DirItem)
  {
    item.Item?
    && (!item.entry.isDir || !item.entry.hasCmdline
        || (item.entry.cmdline.Contents? && !Contains(CommandName(item.entry.cmdline.text), name)))
  }

  /** The entry is a process directory whose command name contains `name`
      and whose `stat` text has a first space-separated field that parses
      as the `i32` `pid`. */
  predicate Selects(name: string, item: DirItem, pid: int)
  {
    item.Item? && item.entry.isDir && item.entry.hasCmdline
    && item.entry.cmdline.Contents? && Contains(CommandName(item.entry.cmdline.text), name)
    && item.entry.stat.Contents? && ParseI32(Split(item.entry.stat.text, ' ')[0]) == Ok(pid)
  }

  /** The result of the scan when it stops at `item`. */
  function Verdict(name: string, item: DirItem): (r: Result<int>)
    requires !Passes(name, item)
    ensures r.Ok? ==> Selects(name, item, r.value)
    ensures r.Err? ==> r.error.Io? || r.error.ParseInt?
    ensures item.BadItem? ==> r == Err(Io(item.code))
    ensures item.Item? && item.entry.cmdline.Unreadable? ==> r == Err(Io(item.entry.cmdline.code))
    ensures item.Item? && item.entry.cmdline.Contents? && item.entry.stat.Unreadable? ==>
              r == Err(Io(item.entry.stat.code))
    ensures r.Err? && r.error.ParseInt? ==>
              item.Item? && item.entry.stat.Contents?
              && ParseI32(Split(item.entry.stat.text, ' ')[0]) == r
  {
    match item
    case BadItem(c) => Err(Io(c))
    case Item(e) =>
      match e.cmdline
      case Unreadable(c) => Err(Io(c))
      case Contents(_) =>
        match e.stat
        case Unreadable(c) => Err(Io(c))
        case Contents(s) => ParseI32(Split(s, ' ')[0])
  }

  /** An item stops the scan with `Ok(pid)` exactly when it selects `pid`. */
  lemma VerdictSelects(name: string, item: DirItem, pid: int)
    ensures Selects(name, item, pid) <==> !Passes(name, item) && Verdict(name, item) == Ok(pid)
  {
    if Selects(name, item, pid) {
      assert !Passes(name, item);
    }
  }

  /** The pid `find_process` settles on for these /proc items. */
  function FirstPid(name: string, items: seq<DirItem>): Result<int>
    decreases |items|
  {
    if items == [] then Err(ProcessNotFound)
    else if Passes(name, items[0]) then FirstPid(name, items[1..])
    else Verdict(name, items[0])
  }

  function FindPid(name: string, listing: Listing): Result<int>
  {
    match listing
    case ListFailed(c) => Err(Io(c))
    case Listed(items) => FirstPid(name, items)
  }

  /** The first item the scan does not move past decides the outcome; when
      there is none, the process is not found. */
  lemma {:induction false} FirstPidDecidedAt(name: string, items: seq<DirItem>, k: nat)
    requires k <= |items|
    requires forall j :: 0 <= j < k ==> Passes(name, items[j])
    requires k < |items| ==> !Passes(name, items[k])
    ensures FirstPid(name, items) == if k == |items| then Err(ProcessNotFound) else Verdict(name, items[k])
    decreases k
  {
    if k > 0 {
      FirstPidDecidedAt(name, items[1..], k - 1);
    }
  }

  /** `ProcessNotFound` exactly when every item is passed over; an I/O or
      parse failure on the way is reported instead. */
  lemma {:induction false} FirstPidNotFound(name: string, items: seq<DirItem>)
    ensures FirstPid(name, items) == Err(ProcessNotFound)
        <==> forall j :: 0 <= j < |items| ==> Passes(name, items[j])
    decreases |items|
  {
    if items != [] {
      FirstPidNotFound(name, items[1..]);
      assert forall j :: 1 <= j < |items| ==> items[j] == items[1..][j - 1];
    }
  }

  /** A found pid comes from the first selecting entry, and every entry
      before it was passed over. */
  lemma {:induction false} FirstPidFound(name: string, items: seq<DirItem>, pid: int)
    requires FirstPid(name, items) == Ok(pid)
    ensures exists k :: 0 <= k < |items| && Selects(name, items[k], pid)
                        && forall j :: 0 <= j < k ==> Passes(name, items[j])
    decreases |items|
  {
    if Passes(name, items[0]) {
      FirstPidFound(name, items[1..], pid);
      var k :| 0 <= k < |items[1..]| && Selects(name, items[1..][k], pid)
               && forall j :: 0 <= j < k ==> Passes(name, items[1..][j]);
      FoundShift(name, items, k, pid);
    } else {
      assert Selects(name, items[0], pid);
    }
  }

  /** A selecting entry of the tail, after passed-over entries, is one of the
      whole listing once a passed-over head is put in front. */
  lemma FoundShift(name: string, items: seq<DirItem>, k: nat, pid: int)
    requires items != [] && Passes(name, items[0]) && k < |items[1..]|
    requires Selects(name, items[1..][k], pid)
    requires forall j :: 0 <= j < k ==> Passes(name, items[1..][j])
    ensures Selects(name, items[k + 1], pid)
    ensures forall j :: 0 <= j < k + 1 ==> Passes(name, items[j])
  {
    assert items[k + 1] == items[1..][k];
    forall j | 0 <= j < k + 1 ensures Passes(name, items[j]) {
      if j > 0 { assert items[j] == items[1..][j - 1]; }
    }
  }

  // =====================================================================
  // read_regions: specification
  // =====================================================================

  /** The line's first word holds a `-`, so both `unwrap`s on its pieces succeed. */
  predicate LineShaped(line: string)
  {
    FirstWord(line).Some? && |Split(FirstWord(line).value, '-')| >= 2
  }

  function StartField(line: string): string
    requires LineShaped(line)
  {
    Split(FirstWord(line).value, '-')[0]
  }

  function EndField(line: string): string
    requires LineShaped(line)
  {
    Split(FirstWord(line).value, '-')[1]
  }

  /** A pair of fields whose `to - from` neither panics (debug build) nor
      wraps (release build): when both parse, the end is not below the start. */
  predicate RangeWellFormed(start: string, end: string)
  {
    ParseHexUsize(start).Ok? && ParseHexUsize(end).Ok? ==> ParseHexUsize(start).value <= ParseHexUsize(end).value
  }

  /** A line `read_regions` handles without panicking: it is shaped, and
      its two fields are well formed. */
  predicate LineWellFormed(line: string)
  {
    LineShaped(line) && RangeWellFormed(StartField(line), EndField(line))
  }

  /** The region between two hex fields: start and end parsed as hex, size
      their difference; the first field's error if it fails, then the
      second's. */
  function ParseRange(start: string, end: string): (r: Result<MemoryRegion>)
    requires RangeWellFormed(start, end)
    ensures r.Ok? <==> ParseHexUsize(start).Ok? && ParseHexUsize(end).Ok?
    ensures r.Ok? ==> ParseHexUsize(start) == Ok(r.value.from) && ParseHexUsize(end) == Ok(r.value.from + r.value.size)
    ensures ParseHexUsize(start).Err? ==> r == Err(ParseHexUsize(start).error)
    ensures ParseHexUsize(start).Ok? && ParseHexUsize(end).Err? ==> r == Err(ParseHexUsize(end).error)
    ensures r.Err? ==> r.error.ParseInt?
  {
    var from :- ParseHexUsize(start);
    var to :- ParseHexUsize(end);
    Ok(MemoryRegion(from, to - from))
  }

  /** One maps line as a region: the region between its two fields. */
  function ParseLine(line: string): Result<MemoryRegion>
    requires LineWellFormed(line)
  {
    ParseRange(StartField(line), EndField(line))
  }

  /** The lines `read_regions` gets through without panicking: every line up
      to the first empty one, or up to the first one that fails to parse, is
      well formed. */
  predicate MapsWellFormed(lines: seq<string>)
    decreases |lines|
  {
    lines == [] || lines[0] == []
    || (LineWellFormed(lines[0]) && (ParseLine(lines[0]).Ok? ==> MapsWellFormed(lines[1..])))
  }

  /** The regions of the maps lines: one per line up to the first empty line,
      or the error of the first line that fails to parse. */
  function ParseMaps(lines: seq<string>): Result<seq<MemoryRegion>>
    requires MapsWellFormed(lines)
    decreases |lines|
  {
    if lines == [] || lines[0] == [] then Ok([])
    else
      var region :- ParseLine(lines[0]);
      var rest :- ParseMaps(lines[1..]);
      Ok([region] + rest)
  }

  /** One step of the line loop: a non-empty line either fails the whole
      parse or contributes its region in front of the rest. */
  lemma ParseMapsStep(lines: seq<string>)
    requires MapsWellFormed(lines) && lines != [] && lines[0] != []
    ensures LineWellFormed(lines[0])
    ensures ParseLine(lines[0]).Err? ==> ParseMaps(lines) == Err(ParseLine(lines[0]).error)
    ensures ParseLine(lines[0]).Ok? ==> MapsWellFormed(lines[1..])
    ensures ParseLine(lines[0]).Ok? && ParseMaps(lines[1..]).Err? ==> ParseMaps(lines) == ParseMaps(lines[1..])
    ensures ParseLine(lines[0]).Ok? && ParseMaps(lines[1..]).Ok?
            ==> ParseMaps(lines) == Ok([ParseLine(lines[0]).value] + ParseMaps(lines[1..]).value)
  {
  }

  /** The line loop of `read_regions`: collect the region of each line up
      to the first empty one, giving up on the first line that fails. */
  method ParseMapsLines(lines: seq<string>) returns (r: Result<seq<MemoryRegion>>)
    requires MapsWellFormed(lines)
    ensures r == ParseMaps(lines)
  {
    var v: seq<MemoryRegion> := [];
    var rest := lines;
    PrependNothing(ParseMaps(lines));
    while rest != [] && rest[0] != []
      invariant MapsWellFormed(rest)
      invariant ParseMaps(lines) == Prepend(v, ParseMaps(rest))
      decreases |rest|
    {
      var line := rest[0];
      ParseMapsLoopStep(lines, rest, v);
      var region :- ParseLine(line);
      v := v + [region];
      rest := rest[1..];
    }
    ParseMapsDone(lines, rest, v);
    return Ok(v);
  }

  /** One turn of the line loop, with the regions `v` of the lines before
      `rest` collected: the next line is well formed, and it either fails
      the whole parse or adds its region to `v`. */
  lemma ParseMapsLoopStep(lines: seq<string>, rest: seq<string>, v: seq<MemoryRegion>)
    requires rest != [] && rest[0] != [] && MapsWellFormed(lines) && MapsWellFormed(rest)
    requires ParseMaps(lines) == Prepend(v, ParseMaps(rest))
    ensures LineWellFormed(rest[0])
    ensures ParseLine(rest[0]).Err? ==> ParseMaps(lines) == Err(ParseLine(rest[0]).error)
    ensures ParseLine(rest[0]).Ok? ==> MapsWellFormed(rest[1..])
    ensures ParseLine(rest[0]).Ok?
            ==> ParseMaps(lines) == Prepend(v + [ParseLine(rest[0]).value], ParseMaps(rest[1..]))
  {
    ParseMapsStep(rest);
    if ParseLine(rest[0]).Ok? {
      PrependTwice(v, ParseLine(rest[0]).value, ParseMaps(rest[1..]));
    }
  }

  /** When the loop stops, at the end or at an empty line, `v` holds all the regions. */
  lemma ParseMapsDone(lines: seq<string>, rest: seq<string>, v: seq<MemoryRegion>)
    requires rest == [] || rest[0] == []
    requires MapsWellFormed(lines) && MapsWellFormed(rest)
    requires ParseMaps(lines) == Prepend(v, ParseMaps(rest))
    ensures ParseMaps(lines) == Ok(v)
  {
    assert ParseMaps(rest) == Ok([]) && v + [] == v;
  }

  /** The regions `read_regions` stores for a maps file. */
  function RegionsOf(file: FileRead): Result<seq<MemoryRegion>>
    requires file.Contents? ==> MapsWellFormed(Split(file.text, '\n'))
  {
    match file
    case Unreadable(c) => Err(Io(c))
    case Contents(t) => ParseMaps(Split(t, '\n'))
  }

  /** The index of the first empty line, or the number of lines. */
  function StopIndex(lines: seq<string>): (k: nat)
    ensures k <= |lines|
    ensures k < |lines| ==> lines[k] == []
    ensures forall j :: 0 <= j < k ==> lines[j] != []
    decreases |lines|
  {
    if lines == [] || lines[0] == [] then 0
    else
      var k := StopIndex(lines[1..]) + 1;
      assert forall j :: 1 <= j < k ==> lines[j] == lines[1..][j - 1];
      k
  }

  /** A successful parse has one region per line before the first empty line,
      region i being line i's. */
  lemma {:induction false} ParseMapsOk(lines: seq<string>)
    requires MapsWellFormed(lines) && ParseMaps(lines).Ok?
    ensures |ParseMaps(lines).value| == StopIndex(lines)
    ensures forall i :: 0 <= i < StopIndex(lines)
              ==> LineWellFormed(lines[i]) && ParseLine(lines[i]) == Ok(ParseMaps(lines).value[i])
    decreases |lines|
  {
    if lines != [] && lines[0] != [] {
      ParseMapsStep(lines);
      ParseMapsOk(lines[1..]);
      ParsedLinesShift(lines, ParseLine(lines[0]).value, ParseMaps(lines[1..]).value);
    }
  }

  /** The regions of the lines after the first, with the first line's region
      in front, are the regions of all the lines. */
  lemma ParsedLinesShift(lines: seq<string>, region: MemoryRegion, rest: seq<MemoryRegion>)
    requires lines != [] && lines[0] != [] && LineWellFormed(lines[0]) && ParseLine(lines[0]) == Ok(region)
    requires |rest| == StopIndex(lines[1..])
    requires forall i :: 0 <= i < StopIndex(lines[1..])
               ==> LineWellFormed(lines[1..][i]) && ParseLine(lines[1..][i]) == Ok(rest[i])
    ensures StopIndex(lines) == |[region] + rest|
    ensures forall i :: 0 <= i < StopIndex(lines)
              ==> LineWellFormed(lines[i]) && ParseLine(lines[i]) == Ok(([region] + rest)[i])
  {
    var all := [region] + rest;
    forall i | 0 <= i < StopIndex(lines)
      ensures LineWellFormed(lines[i]) && ParseLine(lines[i]) == Ok(all[i])
    {
      if i > 0 {
        assert lines[i] == lines[1..][i - 1] && all[i] == rest[i - 1];
      }
    }
  }

  /** The lines before `i` are well formed and parse. */
  predicate ParsedBefore(lines: seq<string>, i: nat)
    requires i <= |lines|
  {
    forall j :: 0 <= j < i ==> LineWellFormed(lines[j]) && ParseLine(lines[j]).Ok?
  }

  /** A failed parse fails with the error of the first line before the first
      empty line that does not parse; no region list is produced. */
  lemma {:induction false} ParseMapsErr(lines: seq<string>)
    requires MapsWellFormed(lines) && ParseMaps(lines).Err?
    ensures exists i :: 0 <= i < StopIndex(lines) && ParsedBefore(lines, i)
                        && LineWellFormed(lines[i]) && ParseLine(lines[i]) == Err(ParseMaps(lines).error)
    decreases |lines|
  {
    ParseMapsStep(lines);
    if ParseLine(lines[0]).Err? {
      assert ParsedBefore(lines, 0);
    } else {
      ParseMapsErr(lines[1..]);
      var i :| 0 <= i < StopIndex(lines[1..]) && ParsedBefore(lines[1..], i)
               && LineWellFormed(lines[1..][i]) && ParseLine(lines[1..][i]) == Err(ParseMaps(lines[1..]).error);
      ParsedBeforeShift(lines, i);
    }
  }

  /** A line of the tail, with every tail line before it parsed, is a line
      of the whole one further on, with every line before it parsed. */
  lemma ParsedBeforeShift(lines: seq<string>, i: nat)
    requires lines != [] && lines[0] != [] && LineWellFormed(lines[0]) && ParseLine(lines[0]).Ok?
    requires i < StopIndex(lines[1..]) && ParsedBefore(lines[1..], i)
    ensures i + 1 < StopIndex(lines) && ParsedBefore(lines, i + 1) && lines[i + 1] == lines[1..][i]
  {
    assert forall j :: 1 <= j < i + 1 ==> lines[j] == lines[1..][j - 1];
  }

  /** A successful parse went through every line before the first empty one. */
  lemma ParseMapsLineOk(lines: seq<string>, k: nat)
    requires MapsWellFormed(lines) && k < StopIndex(lines)
    ensures ParseMaps(lines).Ok? ==> LineWellFormed(lines[k]) && ParseLine(lines[k]).Ok?
  {
    if ParseMaps(lines).Ok? {
      ParseMapsOk(lines);
    }
  }

  /** A malformed hex field fails the whole call: a line before the first
      empty one whose start or end field holds a character that is not a
      hex digit (after an optional leading `+`) makes the parse an error. */
  lemma ParseMapsRejectsBadField(lines: seq<string>, k: nat, field: string, i: nat)
    requires MapsWellFormed(lines) && k < StopIndex(lines) && LineShaped(lines[k])
    requires field == StartField(lines[k]) || field == EndField(lines[k])
    requires i < |field| && Digit(field[i]) >= 16 && (i > 0 || field[0] != '+')
    ensures ParseMaps(lines).Err?
  {
    HexRejectsNonDigit(field, i);
    ParseMapsLineOk(lines, k);
  }

  /** Parsing stops at the first empty line: what follows it is never looked at. */
  lemma {:induction false} ParseMapsStopsAtEmptyLine(before: seq<string>, after1: seq<string>, after2: seq<string>)
    ensures MapsWellFormed(before + [[]] + after1) == MapsWellFormed(before + [[]] + after2)
    ensures MapsWellFormed(before + [[]] + after1)
            ==> ParseMaps(before + [[]] + after1) == ParseMaps(before + [[]] + after2)
    decreases |before|
  {
    var l1, l2 := before + [[]] + after1, before + [[]] + after2;
    if before == [] {
      assert l1[0] == [] && l2[0] == [];
    } else {
      assert l1[0] == before[0] && l2[0] == before[0];
      assert l1[1..] == before[1..] + [[]] + after1;
      assert l2[1..] == before[1..] + [[]] + after2;
      ParseMapsStopsAtEmptyLine(before[1..], after1, after2);
    }
  }

  /** An address as the kernel prints it in a maps line: lower-case hex,
      zero-padded to at least eight digits. */
  function AddressField(n: nat): string
  {
    PadLeft(Numeral(n, 16), 8)
  }

  /** A maps line for `r` in the kernel's layout: `start-end` as address
      fields, a space, then the remaining fields (permissions, offset,
      device, inode, path). */
  function MapsLine(r: MemoryRegion, fields: string): string
  {
    RangeLine(AddressField(r.from), AddressField(r.from + r.size), fields)
  }

  /** The line `a-b fields`. */
  function RangeLine(a: string, b: string, fields: string): string
  {
    a + "-" + b + " " + fields
  }

  /** A maps file listing `regions`, one newline-terminated line each, line
      `i` ending in `fields[i]`. */
  function MapsText(regions: seq<MemoryRegion>, fields: seq<string>): string
    requires |fields| == |regions|
    decreases |regions|
  {
    if regions == [] then [] else MapsLine(regions[0], fields[0]) + "\n" + MapsText(regions[1..], fields[1..])
  }

  /** No whitespace, dash or newline: a character that cannot end a field. */
  predicate PlainText(s: string)
  {
    forall i :: 0 <= i < |s| ==> !IsWhitespace(s[i]) && s[i] != '-'
  }

  /** A 64-bit address field, padding and all, parses back to the address. */
  lemma AddressFieldParses(n: nat)
    requires n < U64_LIMIT
    ensures ParseHexUsize(AddressField(n)) == Ok(n)
  {
    ParseHexUsizePadded(n, 8);
  }

  /** `a` is a field that ends at a dash or a blank and parses to `n`. */
  predicate AddressOf(a: string, n: nat)
  {
    PlainText(a) && ParseHexUsize(a) == Ok(n)
  }

  lemma AddressFieldIsAddress(n: nat)
    requires n < U64_LIMIT
    ensures AddressOf(AddressField(n), n)
  {
    AddressIsPlain(n);
    AddressFieldParses(n);
  }

  lemma AddressIsPlain(n: nat)
    ensures PlainText(AddressField(n))
  {
    PadLeftDigits(Numeral(n, 16), 8, 16);
    DigitsArePlain(AddressField(n));
  }

  /** Hex digits are plain text. */
  lemma DigitsArePlain(s: string)
    requires forall i :: 0 <= i < |s| ==> Digit(s[i]) < 16
    ensures PlainText(s)
  {
    forall i | 0 <= i < |s| ensures !IsWhitespace(s[i]) && s[i] != '-' {
      assert Digit(s[i]) < 16;
    }
  }

  /** `start-end` splits on its dash into the two hex fields. */
  lemma RangeSplits(a: string, b: string)
    requires PlainText(a) && PlainText(b)
    ensures Split(a + "-" + b, '-') == [a, b]
  {
    assert '-' !in a by { forall c | c in a ensures c != '-' { var i :| 0 <= i < |a| && a[i] == c; } }
    assert '-' !in b by { forall c | c in b ensures c != '-' { var i :| 0 <= i < |b| && b[i] == c; } }
    assert [a, b][1..] == [b];
    assert Join([a, b], '-') == a + "-" + b;
    JoinSplit([a, b], '-');
  }

  /** The fields of a line `a-b fields` are `a` and `b` when neither can
      end a field early. */
  lemma RangeLineFields(a: string, b: string, fields: string)
    requires PlainText(a) && PlainText(b)
    ensures LineShaped(RangeLine(a, b, fields))
    ensures StartField(RangeLine(a, b, fields)) == a
    ensures EndField(RangeLine(a, b, fields)) == b
  {
    var word := a + "-" + b;
    assert NoWhitespace(word) by {
      forall i | 0 <= i < |word| ensures !IsWhitespace(word[i]) {
        if i > |a| { assert word[i] == b[i - |a| - 1]; }
      }
    }
    assert RangeLine(a, b, fields) == word + (" " + fields);
    FirstWordOf(word, " " + fields);
    RangeSplits(a, b);
  }

  /** A line `a-b fields` whose two fields parse to the ends of `r` parses to `r`. */
  lemma RangeLineParses(line: string, a: string, b: string, fields: string, r: MemoryRegion)
    requires line == RangeLine(a, b, fields)
    requires AddressOf(a, r.from) && AddressOf(b, r.from + r.size)
    ensures LineWellFormed(line) && ParseLine(line) == Ok(r)
  {
    RangeLineFields(a, b, fields);
    FieldsParse(line, a, b, r);
  }

  /** One rendered line parses back to its region, whatever its trailing fields. */
  lemma MapsLineParses(r: MemoryRegion, fields: string)
    requires r.from + r.size < U64_LIMIT
    ensures LineWellFormed(MapsLine(r, fields)) && ParseLine(MapsLine(r, fields)) == Ok(r)
  {
    var line, a, b := MapsLine(r, fields), AddressField(r.from), AddressField(r.from + r.size);
    AddressFieldIsAddress(r.from);
    AddressFieldIsAddress(r.from + r.size);
    RangeLineParses(line, a, b, fields, r);
  }

  /** A shaped line whose fields parse to the ends of `r` is the line of `r`. */
  lemma FieldsParse(line: string, a: string, b: string, r: MemoryRegion)
    requires LineShaped(line) && StartField(line) == a && EndField(line) == b
    requires ParseHexUsize(a) == Ok(r.from) && ParseHexUsize(b) == Ok(r.from + r.size)
    ensures LineWellFormed(line) && ParseLine(line) == Ok(r)
  {
    assert RangeWellFormed(a, b);
  }

  /** A line `a-b fields` without a newline in its parts holds none. */
  lemma RangeLineIsOneLine(a: string, b: string, fields: string)
    requires PlainText(a) && PlainText(b) && '\n' !in fields
    ensures '\n' !in RangeLine(a, b, fields) && RangeLine(a, b, fields) != []
  {
    var line := RangeLine(a, b, fields);
    var word := a + "-" + b;
    forall i | 0 <= i < |line| ensures line[i] != '\n' {
      if i < |a| { assert line[i] == a[i]; }
      else if |a| < i < |word| { assert line[i] == b[i - |a| - 1]; }
      else if i > |word| { assert line[i] == fields[i - |word| - 1]; }
    }
  }

  /** A rendered line holds no newline, so it stays one line of the file. */
  lemma MapsLineIsOneLine(r: MemoryRegion, fields: string)
    requires '\n' !in fields
    ensures '\n' !in MapsLine(r, fields) && MapsLine(r, fields) != []
  {
    AddressIsPlain(r.from);
    AddressIsPlain(r.from + r.size);
    RangeLineIsOneLine(AddressField(r.from), AddressField(r.from + r.size), fields);
  }

  /** A newline-free line followed by a newline is the first line of the text. */
  lemma SplitFirstLine(line: string, rest: string)
    requires '\n' !in line
    ensures Split(line + "\n" + rest, '\n') == [line] + Split(rest, '\n')
  {
    var tail := "\n" + rest;
    assert line + "\n" + rest == line + tail;
    assert tail[1..] == rest;
    SplitSeparatorFree(line, tail, '\n');
    assert line + [] == line;
  }

  /** A parsed line in front of parsed lines. */
  lemma ParseMapsCons(line: string, lines: seq<string>, region: MemoryRegion, regions: seq<MemoryRegion>)
    requires line != [] && LineWellFormed(line) && ParseLine(line) == Ok(region)
    requires MapsWellFormed(lines) && ParseMaps(lines) == Ok(regions)
    ensures MapsWellFormed([line] + lines) && ParseMaps([line] + lines) == Ok([region] + regions)
  {
    assert ([line] + lines)[0] == line;
    assert ([line] + lines)[1..] == lines;
  }

  /** Round trip: the maps file rendered from a region list parses back to
      exactly that list, in order. */
  lemma {:induction false} ParseMapsText(regions: seq<MemoryRegion>, fields: seq<string>)
    requires |fields| == |regions|
    requires forall i :: 0 <= i < |regions| ==> regions[i].from + regions[i].size < U64_LIMIT
    requires forall i :: 0 <= i < |fields| ==> '\n' !in fields[i]
    ensures MapsWellFormed(Split(MapsText(regions, fields), '\n'))
    ensures ParseMaps(Split(MapsText(regions, fields), '\n')) == Ok(regions)
    decreases |regions|
  {
    if regions == [] {
      assert Split([], '\n') == [[]];
    } else {
      ParseMapsText(regions[1..], fields[1..]);
      ParseMapsTextCons(regions, fields);
    }
  }

  /** The inductive step of the round trip: one more rendered line in front. */
  lemma ParseMapsTextCons(regions: seq<MemoryRegion>, fields: seq<string>)
    requires regions != [] && |fields| == |regions|
    requires regions[0].from + regions[0].size < U64_LIMIT && '\n' !in fields[0]
    requires MapsWellFormed(Split(MapsText(regions[1..], fields[1..]), '\n'))
    requires ParseMaps(Split(MapsText(regions[1..], fields[1..]), '\n')) == Ok(regions[1..])
    ensures MapsWellFormed(Split(MapsText(regions, fields), '\n'))
    ensures ParseMaps(Split(MapsText(regions, fields), '\n')) == Ok(regions)
  {
    var line := MapsLine(regions[0], fields[0]);
    var rest := MapsText(regions[1..], fields[1..]);
    MapsLineParses(regions[0], fields[0]);
    MapsLineIsOneLine(regions[0], fields[0]);
    ConsLine(line, rest, regions);
    assert MapsText(regions, fields) == line + "\n" + rest;
  }

  /** A newline-free line parsing to the first region, in front of a text
      parsing to the others. */
  lemma ConsLine(line: string, rest: string, regions: seq<MemoryRegion>)
    requires regions != []
    requires '\n' !in line && line != [] && LineWellFormed(line) && ParseLine(line) == Ok(regions[0])
    requires MapsWellFormed(Split(rest, '\n')) && ParseMaps(Split(rest, '\n')) == Ok(regions[1..])
    ensures MapsWellFormed(Split(line + "\n" + rest, '\n'))
    ensures ParseMaps(Split(line + "\n" + rest, '\n')) == Ok(regions)
  {
    SplitFirstLine(line, rest);
    ParseMapsCons(line, Split(rest, '\n'), regions[0], regions[1..]);
    assert [regions[0]] + regions[1..] == regions;
  }

  // =====================================================================
  // The cross-process read
  // =====================================================================

  /** `process_vm_readv` from the remote range `(base, len)` into `buff`: the
      kernel moves at most as many bytes as the smaller of the two vectors
      holds, the copied bytes land at the front of the buffer and the rest
      of it is left as it was. */
  method ProcessVmReadv(vm: Syscall, pid: int, base: nat, len: nat, buff: array<byte>) returns (t: Transfer)
    modifies buff
    ensures t == vm(pid, base, Min(len, buff.Length))
    ensures t.Copied? ==> |t.bytes| <= buff.Length
    ensures t.Copied? ==> buff[..] == t.bytes + old(buff[|t.bytes|..])
    ensures t.Failed? ==> buff[..] == old(buff[..])
  {
    t := vm(pid, base, Min(len, buff.Length));
    if t.Copied? {
      var n := |t.bytes|;
      forall i | 0 <= i < n {
        buff[i] := t.bytes[i];
      }
      assert buff[..] == t.bytes + old(buff[n..]);
    }
  }

  /** How `read` reports a failed transfer: `EFAULT` is the distinguished
      `BadAddress(addr, len)`, every other errno passes through as itself. */
  function ReadError(addr: nat, len: nat, e: Errno): (err: ProcessError)
    ensures err.BadAddress? <==> e == EFAULT
    ensures err.BadAddress? ==> err.addr == addr && err.len == len
    ensures !err.BadAddress? ==> err == Os(e)
  {
    if e == EFAULT then BadAddress(addr, len) else Os(e)
  }

  /** What `read(addr, len, buff)` leaves in a zero-filled buffer (the
      copied prefix, then zeros), or the error it reports. */
  function ReadZeroed(vm: Syscall, pid: int, addr: nat, len: nat): (r: Result<seq<byte>>)
    ensures r.Ok? <==> vm(pid, addr, len).Copied?
    ensures r.Ok? ==> |r.value| == len && vm(pid, addr, len).bytes <= r.value
    ensures r.Err? ==> r.error == ReadError(addr, len, vm(pid, addr, len).errno)
  {
    match vm(pid, addr, len)
    case Copied(bs) => Ok(bs + Zeros(len - |bs|))
    case Failed(e) => Err(ReadError(addr, len, e))
  }

  /** Past the copied prefix, the buffer a read leaves is all zeros. */
  lemma ReadZeroedTail(vm: Syscall, pid: int, addr: nat, len: nat)
    requires ReadZeroed(vm, pid, addr, len).Ok?
    ensures forall i :: |vm(pid, addr, len).bytes| <= i < len ==> ReadZeroed(vm, pid, addr, len).value[i] == 0
  {
    var bs := vm(pid, addr, len).bytes;
    var z := Zeros(len - |bs|);
    forall i | |bs| <= i < len ensures (bs + z)[i] == 0 {
      assert (bs + z)[i] == z[i - |bs|];
    }
  }

  // =====================================================================
  // read_signature: specification
  // =====================================================================

  /** Errors after which no later read can succeed either. */
  predicate AbortsScan(e: Errno)
  {
    e == EPERM || e == ESRCH
  }

  /** What examining one region yields: abort the scan, a hit at an
      absolute address, or nothing (unreadable for another reason, or no match). */
  datatype Probe = Abort(errno: Errno) | Hit(address: nat) | Miss

  function ProbeRegion(vm: Syscall, pid: int, region: MemoryRegion, sign: Signature): Probe
  {
    match vm(pid, region.from, region.size)
    case Failed(e) => if AbortsScan(e) then Abort(e) else Miss
    case Copied(bs) =>
      match FindSignature(bs + Zeros(region.size - |bs|), sign)
      case Some(offset) => Hit(region.from + offset)
      case None => Miss
  }

  /** The region's bytes as the scan sees them contain the first match at `offset`. */
  predicate FoundIn(vm: Syscall, pid: int, region: MemoryRegion, sign: Signature, offset: nat)
  {
    vm(pid, region.from, region.size).Copied?
    && var bs := vm(pid, region.from, region.size).bytes;
       var seen := bs + Zeros(region.size - |bs|);
       MatchesAt(seen, sign, offset) && forall k :: 0 <= k < offset ==> !MatchesAt(seen, sign, k)
  }

  /** The result of `read_signature` over `regions`, in their stored order. */
  function ScanRegions(vm: Syscall, pid: int, regions: seq<MemoryRegion>, sign: Signature): Result<nat>
    decreases |regions|
  {
    if regions == [] then Err(SignatureNotFound(sign))
    else
      match ProbeRegion(vm, pid, regions[0], sign)
      case Abort(e) => Err(Os(e))
      case Hit(a) => Ok(a)
      case Miss => ScanRegions(vm, pid, regions[1..], sign)
  }

  /** The scan from region `i` probes region `i`, then goes on from `i + 1` on a miss. */
  lemma ScanFrom(vm: Syscall, pid: int, regions: seq<MemoryRegion>, i: nat, sign: Signature)
    requires i < |regions|
    ensures ScanRegions(vm, pid, regions[i..], sign)
         == match ProbeRegion(vm, pid, regions[i], sign)
            case Abort(e) => Err(Os(e))
            case Hit(a) => Ok(a)
            case Miss => ScanRegions(vm, pid, regions[i + 1..], sign)
  {
    assert regions[i..][0] == regions[i] && regions[i..][1..] == regions[i + 1..];
  }

  /** The first region that is not a miss decides the scan: an abort
      surfaces its errno, a hit its address; with none, the signature is not found. */
  lemma {:induction false} ScanDecidedAt(vm: Syscall, pid: int, regions: seq<MemoryRegion>, sign: Signature, k: nat)
    requires k <= |regions|
    requires forall j :: 0 <= j < k ==> ProbeRegion(vm, pid, regions[j], sign).Miss?
    requires k < |regions| ==> !ProbeRegion(vm, pid, regions[k], sign).Miss?
    ensures k == |regions| ==> ScanRegions(vm, pid, regions, sign) == Err(SignatureNotFound(sign))
    ensures k < |regions| && ProbeRegion(vm, pid, regions[k], sign).Abort?
            ==> ScanRegions(vm, pid, regions, sign) == Err(Os(ProbeRegion(vm, pid, regions[k], sign).errno))
    ensures k < |regions| && ProbeRegion(vm, pid, regions[k], sign).Hit?
            ==> ScanRegions(vm, pid, regions, sign) == Ok(ProbeRegion(vm, pid, regions[k], sign).address)
    decreases k
  {
    if k > 0 {
      ScanDecidedAt(vm, pid, regions[1..], sign, k - 1);
    }
  }

  /** A found address is `region.from + offset` for the first region whose
      read succeeded and whose bytes match, `offset` being the lowest match;
      every earlier region was unreadable without aborting, or held no match. */
  lemma {:induction false} ScanFound(vm: Syscall, pid: int, regions: seq<MemoryRegion>, sign: Signature, address: nat)
    requires ScanRegions(vm, pid, regions, sign) == Ok(address)
    ensures exists k, offset :: 0 <= k < |regions| && FoundIn(vm, pid, regions[k], sign, offset)
              && address == regions[k].from + offset
              && forall j :: 0 <= j < k ==> ProbeRegion(vm, pid, regions[j], sign).Miss?
    decreases |regions|
  {
    var r := regions[0];
    match ProbeRegion(vm, pid, r, sign)
    case Hit(a) =>
      var bs := vm(pid, r.from, r.size).bytes;
      var offset := FindSignature(bs + Zeros(r.size - |bs|), sign).value;
      assert FoundIn(vm, pid, r, sign, offset);
    case Miss =>
      ScanFound(vm, pid, regions[1..], sign, address);
      var k, offset :| 0 <= k < |regions[1..]| && FoundIn(vm, pid, regions[1..][k], sign, offset)
                       && address == regions[1..][k].from + offset
                       && forall j :: 0 <= j < k ==> ProbeRegion(vm, pid, regions[1..][j], sign).Miss?;
      assert forall j :: 1 <= j < k + 1 ==> regions[j] == regions[1..][j - 1];
      assert FoundIn(vm, pid, regions[k + 1], sign, offset);
  }

  /** `SignatureNotFound` exactly when every region is a miss. */
  lemma {:induction false} ScanNotFound(vm: Syscall, pid: int, regions: seq<MemoryRegion>, sign: Signature)
    ensures ScanRegions(vm, pid, regions, sign) == Err(SignatureNotFound(sign))
        <==> forall j :: 0 <= j < |regions| ==> ProbeRegion(vm, pid, regions[j], sign).Miss?
    decreases |regions|
  {
    if regions != [] {
      ScanNotFound(vm, pid, regions[1..], sign);
      assert forall j :: 1 <= j < |regions| ==> regions[j] == regions[1..][j - 1];
    }
  }

  /** An `EPERM` or `ESRCH` read ends the scan with that errno, whatever the
      regions after it hold. */
  lemma {:induction false} ScanAbortsAt(vm: Syscall, pid: int, before: seq<MemoryRegion>, region: MemoryRegion,
                                         after: seq<MemoryRegion>, sign: Signature)
    requires forall j :: 0 <= j < |before| ==> ProbeRegion(vm, pid, before[j], sign).Miss?
    requires vm(pid, region.from, region.size).Failed? && AbortsScan(vm(pid, region.from, region.size).errno)
    ensures ScanRegions(vm, pid, before + [region] + after, sign) == Err(Os(vm(pid, region.from, region.size).errno))
    decreases |before|
  {
    if before != [] {
      assert (before + [region] + after)[1..] == before[1..] + [region] + after;
      ScanAbortsAt(vm, pid, before[1..], region, after, sign);
    }
  }

  /** A region whose read fails with any other errno is skipped: the scan
      behaves as if the region were not listed. */
  lemma {:induction false} ScanSkipsUnreadable(vm: Syscall, pid: int, before: seq<MemoryRegion>, region: MemoryRegion,
                                                after: seq<MemoryRegion>, sign: Signature)
    requires vm(pid, region.from, region.size).Failed? && !AbortsScan(vm(pid, region.from, region.size).errno)
    ensures ScanRegions(vm, pid, before + [region] + after, sign) == ScanRegions(vm, pid, before + after, sign)
    decreases |before|
  {
    if before == [] {
      assert (before + [region] + after)[1..] == after;
      assert before + after == after;
    } else {
      assert (before + [region] + after)[1..] == before[1..] + [region] + after;
      assert (before + after)[1..] == before[1..] + after;
      ScanSkipsUnreadable(vm, pid, before[1..], region, after, sign);
    }
  }

  // =====================================================================
  // The process
  // =====================================================================

  /** A target process: its pid, fixed at construction, and the list of its
      memory regions, filled in by `ReadRegions`. */
  class Process {
    const pid: int
    var maps: seq<MemoryRegion>

    constructor (pid: int)
      ensures this.pid == pid && maps == []
    {
      this.pid := pid;
      maps := [];
    }

    /** `find_process`: walk the /proc listing and take the first process
        directory whose command name contains `procName`. */
    static method FindProcess(procName: string, proc: Listing) returns (r: Result<Process>)
      ensures r.Ok? ==> fresh(r.value) && r.value.maps == [] && FindPid(procName, proc) == Ok(r.value.pid)
      ensures r.Err? ==> FindPid(procName, proc) == Err(r.error)
    {
      var found := false;
      if proc.ListFailed? {
        return Err(Io(proc.code));
      }
      var paths := proc.items;
      var pid: int := -1;
      for i := 0 to |paths|
        invariant !found
        invariant FirstPid(procName, paths) == FirstPid(procName, paths[i..])
      {
        assert paths[i..][1..] == paths[i + 1..];
        if paths[i].BadItem? {
          return Err(Io(paths[i].code));
        }
        var p := paths[i].entry;
        if !p.isDir {
          continue;
        }
        if !p.hasCmdline {
          continue;
        }
        if p.cmdline.Unreadable? {
          return Err(Io(p.cmdline.code));
        }
        var line := Split(p.cmdline.text, ' ')[0];
        if Contains(line, procName) {
          if p.stat.Unreadable? {
            return Err(Io(p.stat.code));
          }
          var pidStr := Split(p.stat.text, ' ')[0];
          var parsed := ParseI32(pidStr);
          if parsed.Err? {
            return Err(parsed.error);
          }
          pid := parsed.value;
          found := true;
          break;
        }
      }
      if found {
        var process := new Process(pid);
        return Ok(process);
      }
      return Err(ProcessNotFound);
    }

    /** `initialize`: find the process, then read its regions. */
    static method Initialize(procName: string, proc: Listing, mapsOf: int -> FileRead) returns (r: Result<Process>)
      requires FindPid(procName, proc).Ok? && mapsOf(FindPid(procName, proc).value).Contents?
               ==> MapsWellFormed(Split(mapsOf(FindPid(procName, proc).value).text, '\n'))
      ensures r.Ok? ==> fresh(r.value) && FindPid(procName, proc) == Ok(r.value.pid)
                        && RegionsOf(mapsOf(r.value.pid)) == Ok(r.value.maps)
      ensures r.Err? ==> FindPid(procName, proc) == Err(r.error)
                         || (FindPid(procName, proc).Ok? && RegionsOf(mapsOf(FindPid(procName, proc).value)) == Err(r.error))
    {
      var process :- FindProcess(procName, proc);
      r := process.ReadRegions(mapsOf(process.pid));
    }

    /** `read_regions`: parse the maps file line by line up to the first
        empty line; the region list is stored only when every line parsed. */
    method ReadRegions(file: FileRead) returns (r: Result<Process>)
      requires file.Contents? ==> MapsWellFormed(Split(file.text, '\n'))
      modifies this
      ensures r.Ok? ==> r.value == this && RegionsOf(file) == Ok(maps)
      ensures r.Err? ==> RegionsOf(file) == Err(r.error) && maps == old(maps)
    {
      if file.Unreadable? {
        return Err(Io(file.code));
      }
      var lines := Split(file.text, '\n');
      var v :- ParseMapsLines(lines);
      maps := v;
      return Ok(this);
    }

    /** `read_signature`: scan the regions in stored order for `sign`. */
    method ReadSignature(vm: Syscall, sign: Signature) returns (r: Result<nat>)
      ensures r == ScanRegions(vm, pid, maps, sign)
    {
      for i := 0 to |maps|
        invariant ScanRegions(vm, pid, maps, sign) == ScanRegions(vm, pid, maps[i..], sign)
      {
        ScanFrom(vm, pid, maps, i, sign);
        var probe := ScanRegion(vm, maps[i], sign);
        match probe
        case Abort(e) => return Err(Os(e));
        case Hit(a) => return Ok(a);
        case Miss =>
      }
      return Err(SignatureNotFound(sign));
    }

    /** One turn of `read_signature`'s loop: read the region into a zeroed
        buffer and search it. */
    method ScanRegion(vm: Syscall, region: MemoryRegion, sign: Signature) returns (p: Probe)
      ensures p == ProbeRegion(vm, pid, region, sign)
    {
      var buff := new byte[region.size](_ => 0);
      ghost var zeroed := buff[..];
      var res := ProcessVmReadv(vm, pid, region.from, region.size, buff);
      if res.Failed? {
        return if AbortsScan(res.errno) then Abort(res.errno) else Miss;
      }
      assert zeroed[|res.bytes|..] == Zeros(region.size - |res.bytes|);
      var found := FindSignature(buff[..], sign);
      return if found.Some? then Hit(region.from + found.value) else Miss;
    }

    /** `read`: one cross-process read of `len` bytes at `addr` into `buff`. */
    method Read(vm: Syscall, addr: nat, len: nat, buff: array<byte>) returns (r: Result<()>)
      modifies buff
      ensures r.Ok? <==> vm(pid, addr, Min(len, buff.Length)).Copied?
      ensures r.Err? ==> r.error == ReadError(addr, len, vm(pid, addr, Min(len, buff.Length)).errno)
      ensures r.Ok? ==> var bs := vm(pid, addr, Min(len, buff.Length)).bytes;
                        |bs| <= buff.Length && buff[..] == bs + old(buff[|bs|..])
      ensures r.Err? ==> buff[..] == old(buff[..])
    {
      var res := ProcessVmReadv(vm, pid, addr, len, buff);
      match res {
        case Copied(_) =>
        case Failed(e) =>
          if e == EFAULT {
            return Err(BadAddress(addr, len));
          }
          return Err(Os(e));
      }
      return Ok(());
    }
  }
}
