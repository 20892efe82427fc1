/** The configuration file of kv_RDB.c: what is printed, how a line is read, and exactly when reading
    gives back what was printed. */
module ConfigFormat {
  import opened Text
  import opened Framing
  import opened RdbFormat

  const LINE_BYTES := 255
  const PATH_BYTES := 511

  const NL: Ch := 10
  const CR: Ch := 13
  const BLANK: Ch := 32
  const SHARP: Ch := 35
  const EQUALS: Ch := 61

  /** g_rdb_config */
  datatype Config = Config(interval: int, file: Text, enabled: int, compression: int, crc64: int, backup: int, dir: Text)

  datatype Field = Interval | File | Enabled | Compression | Crc64 | Backup | Dir

  function Name(f: Field): Text
  {
    match f
    case Interval => [115, 97, 118, 101, 95, 105, 110, 116, 101, 114, 118, 97, 108]
    case File => [114, 100, 98, 95, 102, 105, 108, 101]
    case Enabled => [114, 100, 98, 95, 101, 110, 97, 98, 108, 101, 100]
    case Compression => [114, 100, 98, 95, 99, 111, 109, 112, 114, 101, 115, 115, 105, 111, 110]
    case Crc64 => [114, 100, 98, 95, 99, 114, 99, 54, 52]
    case Backup => [114, 100, 98, 95, 98, 97, 99, 107, 117, 112]
    case Dir => [98, 97, 99, 107, 117, 112, 95, 100, 105, 114]
  }

  const YES: Text := [121, 101, 115]
  const NO: Text := [110, 111]
  const ONE: Text := [49]

  /** The bytes of an ASCII text. */
  function Spell(s: string): (t: Text)
    ensures |t| == |s| && forall i :: 0 <= i < |s| && 1 <= s[i] as int < 128 ==> t[i] == s[i] as int
  {
    seq(|s|, i requires 0 <= i < |s| => if 1 <= s[i] as int < 128 then s[i] as int else 63)
  }

  lemma Spelling()
    ensures Name(Interval) == Spell("save_interval") && Name(File) == Spell("rdb_file")
    ensures Name(Enabled) == Spell("rdb_enabled") && Name(Compression) == Spell("rdb_compression")
    ensures Name(Crc64) == Spell("rdb_crc64") && Name(Backup) == Spell("rdb_backup") && Name(Dir) == Spell("backup_dir")
    ensures YES == Spell("yes") && NO == Spell("no") && ONE == Spell("1") && [BLANK, EQUALS, BLANK] == Spell(" = ")
  {
    hide Name, Spell;
    SpellingOfPlaces();
    SpellingOfSwitches();
    SpellingOfWords();
  }

  lemma SpellingOfPlaces()
    ensures Name(Interval) == Spell("save_interval") && Name(File) == Spell("rdb_file") && Name(Dir) == Spell("backup_dir")
  {
  }

  lemma SpellingOfSwitches()
    ensures Name(Enabled) == Spell("rdb_enabled") && Name(Compression) == Spell("rdb_compression")
    ensures Name(Crc64) == Spell("rdb_crc64") && Name(Backup) == Spell("rdb_backup")
  {
  }

  lemma SpellingOfWords()
    ensures YES == Spell("yes") && NO == Spell("no") && ONE == Spell("1") && [BLANK, EQUALS, BLANK] == Spell(" = ")
  {
  }

  // ----- numbers

  function Digits(n: nat): (t: Text)
    ensures t != [] && forall i :: 0 <= i < |t| ==> 48 <= t[i] <= 57
  {
    if n < 10 then [48 + n] else Digits(n / 10) + [48 + n % 10]
  }

  /** printf's %d */
  function PrintInt(n: int): Text
  {
    if n < 0 then [45] + Digits(-n) else Digits(n)
  }

  predicate IsDigit(c: Ch)
  {
    48 <= c <= 57
  }

  function Span(t: Text): (n: nat)
    ensures n <= |t| && (forall i :: 0 <= i < n ==> IsDigit(t[i])) && (n < |t| ==> !IsDigit(t[n]))
  {
    if t == [] || !IsDigit(t[0]) then 0 else 1 + Span(t[1..])
  }

  function Value(t: Text): nat
    requires forall i :: 0 <= i < |t| ==> IsDigit(t[i])
  {
    if t == [] then 0
    else
      assert IsDigit(t[|t| - 1]);
      Value(t[..|t| - 1]) * 10 + (t[|t| - 1] as int - 48)
  }

  predicate IsSpace(c: Ch)
  {
    c == 32 || 9 <= c <= 13
  }

  /** atoi: blanks, a sign, and as many digits as there are. */
  function Atoi(t: Text): int
  {
    if t != [] && IsSpace(t[0]) then Atoi(t[1..])
    else if t != [] && t[0] == 45 then 0 - Value(t[1..][..Span(t[1..])])
    else
      var u := if t != [] && t[0] == 43 then t[1..] else t;
      Value(u[..Span(u)])
  }

  function Tens(k: nat): nat
  {
    if k == 0 then 1 else 10 * Tens(k - 1)
  }

  /** A digit counts for as many tens as digits follow it. */
  lemma {:induction false} ValueMeans(d: Ch, t: Text)
    requires IsDigit(d) && forall i :: 0 <= i < |t| ==> IsDigit(t[i])
    ensures Value([d] + t) == (d as int - 48) * Tens(|t|) + Value(t)
  {
    var u := [d] + t;
    if t == [] {
      assert u[..0] == [];
    } else {
      var n := |t| - 1;
      ValueMeans(d, t[..n]);
      assert u[..|u| - 1] == [d] + t[..n];
      TimesTen(d as int - 48, Tens(n));
    }
  }

  lemma TimesTen(a: int, b: int)
    ensures a * b * 10 == a * (10 * b)
  {
  }

  /** Blanks of any kind, a sign or none, digits, and whatever follows them: atoi is the number in the
      digits, with the sign; without digits it is 0. */
  lemma {:induction false} AtoiMeans(spaces: Text, sign: Text, digits: Text, rest: Text)
    requires forall i :: 0 <= i < |spaces| ==> spaces[i] == 32 || 9 <= spaces[i] <= 13
    requires sign == [] || sign == [43] || sign == [45]
    requires forall i :: 0 <= i < |digits| ==> 48 <= digits[i] <= 57
    requires rest != [] ==> !(48 <= rest[0] <= 57)
    requires sign == [] && digits == [] && rest != [] ==> !(rest[0] == 32 || 9 <= rest[0] <= 13 || rest[0] == 43 || rest[0] == 45)
    ensures Atoi(spaces + sign + digits + rest) == if sign == [45] then 0 - Value(digits) else Value(digits)
  {
    var t := spaces + sign + digits + rest;
    if spaces == [] {
      assert t == sign + digits + rest;
      AtoiSigned(sign, digits, rest);
    } else {
      AtoiMeans(spaces[1..], sign, digits, rest);
      assert t[0] == spaces[0] && t[1..] == spaces[1..] + sign + digits + rest;
    }
  }

  lemma AtoiSigned(sign: Text, digits: Text, rest: Text)
    requires sign == [] || sign == [43] || sign == [45]
    requires forall i :: 0 <= i < |digits| ==> IsDigit(digits[i])
    requires rest != [] ==> !IsDigit(rest[0])
    requires sign == [] && digits == [] && rest != [] ==> !IsSpace(rest[0]) && rest[0] != 43 && rest[0] != 45
    ensures Atoi(sign + digits + rest) == if sign == [45] then 0 - Value(digits) else Value(digits)
  {
    hide Span, Value;
    var u := digits + rest;
    SpanIs(digits, rest);
    if sign == [] {
      assert sign + digits + rest == u;
      assert u != [] ==> u[0] == if digits != [] then digits[0] else rest[0];
    } else {
      assert (sign + digits + rest)[0] == sign[0] && (sign + digits + rest)[1..] == u;
    }
  }

  lemma SpanIs(digits: Text, rest: Text)
    requires forall i :: 0 <= i < |digits| ==> IsDigit(digits[i])
    requires rest != [] ==> !IsDigit(rest[0])
    ensures Span(digits + rest) == |digits| && (digits + rest)[..|digits|] == digits
  {
    var t := digits + rest;
    assert forall i :: 0 <= i < |digits| ==> t[i] == digits[i];
    assert rest != [] ==> t[|digits|] == rest[0];
  }

  /** A number is printed without leading zeros. */
  lemma {:induction false} DigitsMean(n: nat)
    ensures |Digits(n)| > 1 ==> Digits(n)[0] != 48
    ensures |Digits(n)| == 1 <==> n < 10
  {
    if n >= 10 {
      DigitsMean(n / 10);
    }
  }

  lemma {:induction false} DigitsValue(n: nat)
    ensures Value(Digits(n)) == n
  {
    if n >= 10 {
      DigitsValue(n / 10);
      assert Digits(n)[..|Digits(n)| - 1] == Digits(n / 10);
    } else {
      assert Digits(n)[..0] == [];
    }
  }

  lemma SpanAll(t: Text)
    requires forall i :: 0 <= i < |t| ==> IsDigit(t[i])
    ensures Span(t) == |t| && t[..Span(t)] == t
  {
  }

  /** Every number is read back as printed. */
  lemma IntRoundTrip(n: int)
    ensures Atoi(PrintInt(n)) == n
  {
    var d := Digits(if n < 0 then -n else n);
    DigitsValue(if n < 0 then -n else n);
    SpanAll(d);
    if n < 0 {
      assert PrintInt(n)[1..] == d;
    }
  }

  // ----- one line

  /** What strchr finds: the place of the first c, or the length. */
  function Index(t: Text, c: Ch): (i: nat)
    ensures i <= |t| && (i < |t| ==> t[i] == c) && c !in t[..i]
  {
    if t == [] || t[0] == c then 0 else 1 + Index(t[1..], c)
  }

  function Before(t: Text, c: Ch): Text
  {
    t[..Index(t, c)]
  }

  /** A line without its newline and carriage return. */
  function Line(t: Text): Text
  {
    Before(Before(t, NL), CR)
  }

  function TrimStart(t: Text): (r: Text)
    ensures |r| <= |t| && (r == [] || r[0] != BLANK)
    ensures r == t[|t| - |r|..]
  {
    if t != [] && t[0] == BLANK then TrimStart(t[1..]) else t
  }

  /** The first character is never trimmed. */
  function TrimEnd(t: Text): (r: Text)
    ensures |r| <= |t| && r == t[..|r|] && (|r| > 1 ==> r[|r| - 1] != BLANK) && (t != [] ==> r != [])
  {
    if |t| > 1 && t[|t| - 1] == BLANK then TrimEnd(t[..|t| - 1]) else t
  }

  function Trim(t: Text): Text
  {
    TrimEnd(TrimStart(t))
  }

  /** strncpy into a path buffer */
  function Cap(t: Text): (r: Text)
    ensures |r| <= |t|
  {
    if |t| > PATH_BYTES then t[..PATH_BYTES] else t
  }

  function Flag(t: Text): int
  {
    if t == YES || t == ONE then 1 else 0
  }

  lemma {:induction false} TrimStartIs(a: Text, rest: Text)
    requires (forall i :: 0 <= i < |a| ==> a[i] == 32) && (rest != [] ==> rest[0] != 32)
    ensures TrimStart(a + rest) == rest
  {
    if a == [] {
      assert a + rest == rest;
    } else {
      assert (a + rest)[0] == a[0] && (a + rest)[1..] == a[1..] + rest;
      TrimStartIs(a[1..], rest);
    }
  }

  lemma {:induction false} TrimEndIs(t: Text, b: Text)
    requires (forall i :: 0 <= i < |b| ==> b[i] == 32) && t != [] && t[|t| - 1] != 32
    ensures TrimEnd(t + b) == t
  {
    if b == [] {
      assert t + b == t;
    } else {
      var n := |b| - 1;
      assert (t + b)[|t + b| - 1] == b[n] && (t + b)[..|t + b| - 1] == t + b[..n];
      TrimEndIs(t, b[..n]);
    }
  }

  /** Blanks around a text are taken away, nothing else, and all of them. */
  lemma TrimMeans(a: Text, t: Text, b: Text)
    requires (forall i :: 0 <= i < |a| ==> a[i] == 32) && (forall i :: 0 <= i < |b| ==> b[i] == 32)
    requires t != [] ==> t[0] != 32 && t[|t| - 1] != 32
    ensures Trim(a + t + b) == t
  {
    hide TrimStart, TrimEnd;
    if t == [] {
      assert a + t + b == a + b + [];
      TrimStartIs(a + b, []);
    } else {
      assert a + t + b == a + (t + b) && (t + b)[0] == t[0];
      TrimStartIs(a, t + b);
      TrimEndIs(t, b);
    }
  }

  /** A path is kept whole up to 511 bytes, and else cut. */
  lemma CapMeans(t: Text)
    ensures Cap(t) <= t && |Cap(t)| == if |t| <= 511 then |t| else 511
  {
  }

  /** "yes" and "1" are 1, everything else is 0. */
  lemma FlagMeans(t: Text)
    ensures Flag(t) == 0 || Flag(t) == 1
    ensures Flag(t) == 1 <==> t == Spell("yes") || t == Spell("1")
  {
    Spelling();
  }

  function Assign(c: Config, key: Text, value: Text): Config
  {
    if key == Name(Interval) then c.(interval := Atoi(value))
    else if key == Name(File) then c.(file := Cap(value))
    else if key == Name(Enabled) then c.(enabled := Flag(value))
    else if key == Name(Compression) then c.(compression := Flag(value))
    else if key == Name(Backup) then c.(backup := Flag(value))
    else if key == Name(Dir) then c.(dir := Cap(value))
    else if key == Name(Crc64) then c.(crc64 := Flag(value))
    else c
  }

  function Apply(c: Config, line: Text): Config
  {
    if line != [] && (line[0] == SHARP || line[0] == NL || line[0] == CR) then c
    else
      var a := Line(line);
      var i := Index(a, EQUALS);
      if i == |a| then c else Assign(c, Trim(a[..i]), Trim(a[i + 1..]))
  }

  /** Which setting a name changes, and to what. */
  lemma AssignMeans(c: Config, key: Text, value: Text)
    ensures key == Spell("save_interval") ==> Assign(c, key, value) == c.(interval := Atoi(value))
    ensures key == Spell("rdb_file") ==> Assign(c, key, value) == c.(file := Cap(value))
    ensures key == Spell("rdb_enabled") ==> Assign(c, key, value) == c.(enabled := Flag(value))
    ensures key == Spell("rdb_compression") ==> Assign(c, key, value) == c.(compression := Flag(value))
    ensures key == Spell("rdb_crc64") ==> Assign(c, key, value) == c.(crc64 := Flag(value))
    ensures key == Spell("rdb_backup") ==> Assign(c, key, value) == c.(backup := Flag(value))
    ensures key == Spell("backup_dir") ==> Assign(c, key, value) == c.(dir := Cap(value))
    ensures (forall f: Field :: key != Name(f)) ==> Assign(c, key, value) == c
  {
    hide Cap, Flag, Atoi;
    Spelling();
    NamesApart();
  }

  lemma NamesApart()
    ensures forall f: Field, g: Field :: Name(f) == Name(g) ==> f == g
  {
    forall f: Field, g: Field | f != g ensures Name(f) != Name(g) {
      assert |Name(f)| == |Name(g)| ==> Name(f)[4] != Name(g)[4] || Name(f)[5] != Name(g)[5];
    }
  }

  /** A line with an equals sign before its end: what stands before the first one names the setting, and
      what stands behind it is the value, both without the blanks around them. */
  lemma ApplyMeans(c: Config, k: Text, v: Text, rest: Text)
    requires 61 !in k && 10 !in k && 13 !in k && 10 !in v && 13 !in v && (k != [] ==> k[0] != 35)
    requires rest != [] ==> rest[0] == 10 || rest[0] == 13
    ensures Apply(c, k + [61] + v + rest) == Assign(c, Trim(k), Trim(v))
  {
    hide Trim, Assign;
    var body := k + [61] + v;
    var line := body + rest;
    LineIs(body, rest);
    assert line[0] == if k != [] then k[0] else 61;
    assert k != [] ==> k[0] in k;
    assert body[|k|] == 61;
    IndexIs(body, EQUALS, |k|) by {
      assert forall j :: 0 <= j < |k| ==> body[j] == k[j] && k[j] in k;
    }
    assert body[..|k|] == k && body[|k| + 1..] == v;
  }

  /** Comments, and lines without an equals sign, change nothing. */
  lemma ApplyNothing(c: Config, body: Text, rest: Text)
    requires 10 !in body && 13 !in body && (rest != [] ==> rest[0] == 10 || rest[0] == 13)
    requires 61 !in body || body[0] == 35
    ensures Apply(c, body + rest) == c
  {
    hide Trim, Assign;
    LineIs(body, rest);
    if 61 !in body {
      IndexIs(body, EQUALS, |body|);
    } else {
      assert (body + rest)[0] == body[0];
    }
  }

  /** A line ends before the first newline or carriage return. */
  lemma LineIs(body: Text, rest: Text)
    requires 10 !in body && 13 !in body && (rest != [] ==> rest[0] == 10 || rest[0] == 13)
    ensures Line(body + rest) == body
  {
    var t := body + rest;
    var u := Before(t, NL);
    assert forall j :: 0 <= j < |body| ==> t[j] == body[j] && body[j] in body;
    assert |u| >= |body|;
    assert forall j :: 0 <= j < |body| ==> u[j] == t[j];
    if |u| > |body| {
      assert u[|body|] == t[|body|] == rest[0] == 13;
    }
    IndexIs(u, CR, |body|);
    assert u[..|body|] == body;
  }

  // ----- the file

  /** Where fgets stops: behind a newline, at the end, or when the buffer is full. */
  function LineEnd(f: seq<Byte>, pos: nat, room: nat): (e: nat)
    requires pos <= |f|
    ensures pos <= e <= |f| && e <= pos + room && (room > 0 && pos < |f| ==> e > pos)
    decreases room
  {
    if room == 0 || pos == |f| then pos
    else if f[pos] == NL then pos + 1
    else LineEnd(f, pos + 1, room - 1)
  }

  /** It stops behind the first newline, or else at the end or with a full buffer. */
  lemma {:induction false} LineEndMeans(f: seq<Byte>, pos: nat, room: nat)
    requires pos <= |f|
    ensures var e := LineEnd(f, pos, room);
            && (forall i :: pos <= i < e - 1 ==> f[i] != 10)
            && (e == |f| || e == pos + room || (e > pos && f[e - 1] == 10))
    decreases room
  {
    if room > 0 && pos < |f| && f[pos] != NL {
      LineEndMeans(f, pos + 1, room - 1);
    }
  }

  /** rdb_config_load, from a place in the file on. */
  function LoadFrom(f: seq<Byte>, pos: nat, c: Config): Config
    requires pos <= |f|
    decreases |f| - pos
  {
    if pos == |f| then c
    else
      var e := LineEnd(f, pos, LINE_BYTES);
      LoadFrom(f, e, Apply(c, Str(f[pos..e])))
  }

  /** A line that says what a name stands for. */
  function Setting(n: Text, v: Text): Text
  {
    n + [BLANK, EQUALS, BLANK] + v
  }

  function Entry(f: Field, value: Text): Text
  {
    Setting(Name(f), value)
  }

  function YesNo(flag: int): Text
  {
    if flag != 0 then YES else NO
  }

  function Block(note: Text, f: Field, value: Text): seq<Text>
  {
    [note, Entry(f, value), []]
  }

  /** The lines before the file entry, between it and the directory entry, and the last two; notes
      are the ten comment lines. */
  function Head(c: Config, notes: seq<Text>): seq<Text>
    requires |notes| == 10
  {
    [notes[0], notes[1], notes[2], []] + Block(notes[3], Interval, PrintInt(c.interval)) + [notes[4]]
  }

  function Middle(c: Config, notes: seq<Text>): seq<Text>
    requires |notes| == 10
  {
    [[]] + Block(notes[5], Enabled, YesNo(c.enabled)) + Block(notes[6], Compression, YesNo(c.compression))
    + Block(notes[7], Crc64, YesNo(c.crc64)) + Block(notes[8], Backup, YesNo(c.backup)) + [notes[9]]
  }

  /** rdb_config_save */
  function Lines(c: Config, notes: seq<Text>): seq<Text>
    requires |notes| == 10
  {
    Head(c, notes) + [Entry(File, c.file)] + Middle(c, notes) + [Entry(Dir, c.dir)]
  }

  function Told(flag: int): Text
  {
    if flag != 0 then Spell("yes") else Spell("no")
  }

  /** The file, line by line. */
  lemma FileLines(c: Config, notes: seq<Text>)
    requires |notes| == 10
    ensures Lines(c, notes)
         == [notes[0], notes[1], notes[2], [],
             notes[3], Spell("save_interval = ") + PrintInt(c.interval), [],
             notes[4], Spell("rdb_file = ") + c.file, [],
             notes[5], Spell("rdb_enabled = ") + Told(c.enabled), [],
             notes[6], Spell("rdb_compression = ") + Told(c.compression), [],
             notes[7], Spell("rdb_crc64 = ") + Told(c.crc64), [],
             notes[8], Spell("rdb_backup = ") + Told(c.backup), [],
             notes[9], Spell("backup_dir = ") + c.dir]
  {
    hide Head, Middle, Spell, Entry, PrintInt, YesNo, Name;
    HeadLines(c, notes);
    MiddleLines(c, notes);
    PathLines(c);
  }

  lemma PathLines(c: Config)
    ensures Entry(File, c.file) == Spell("rdb_file = ") + c.file && Entry(Dir, c.dir) == Spell("backup_dir = ") + c.dir
  {
    hide Name, Spell, Entry;
    Spelling();
    EntrySpelled(File, "rdb_file", "rdb_file = ", c.file);
    EntrySpelled(Dir, "backup_dir", "backup_dir = ", c.dir);
  }

  lemma HeadLines(c: Config, notes: seq<Text>)
    requires |notes| == 10
    ensures Head(c, notes)
         == [notes[0], notes[1], notes[2], [], notes[3], Spell("save_interval = ") + PrintInt(c.interval), [], notes[4]]
  {
    hide Name, PrintInt, Spell, Entry;
    Spelling();
    EntrySpelled(Interval, "save_interval", "save_interval = ", PrintInt(c.interval));
  }

  lemma MiddleLines(c: Config, notes: seq<Text>)
    requires |notes| == 10
    ensures Middle(c, notes)
         == [[], notes[5], Spell("rdb_enabled = ") + Told(c.enabled), [],
             notes[6], Spell("rdb_compression = ") + Told(c.compression), [],
             notes[7], Spell("rdb_crc64 = ") + Told(c.crc64), [],
             notes[8], Spell("rdb_backup = ") + Told(c.backup), [], notes[9]]
  {
    hide Name, Spell, Entry;
    Spelling();
    EntrySpelled(Enabled, "rdb_enabled", "rdb_enabled = ", YesNo(c.enabled));
    EntrySpelled(Compression, "rdb_compression", "rdb_compression = ", YesNo(c.compression));
    EntrySpelled(Crc64, "rdb_crc64", "rdb_crc64 = ", YesNo(c.crc64));
    EntrySpelled(Backup, "rdb_backup", "rdb_backup = ", YesNo(c.backup));
  }

  lemma EntrySpelled(f: Field, name: string, front: string, v: Text)
    requires Name(f) == Spell(name) && front == name + " = "
    ensures Entry(f, v) == Spell(front) + v
  {
    hide Name, Spell;
    Spelling();
    SpellConcat(name, " = ");
    assert Name(f) + [BLANK, EQUALS, BLANK] == Spell(front);
  }

  lemma SpellConcat(a: string, b: string)
    ensures Spell(a + b) == Spell(a) + Spell(b)
  {
  }

  function Unlines(lines: seq<Text>): seq<Byte>
  {
    if lines == [] then [] else lines[0] + [NL] + Unlines(lines[1..])
  }

  lemma {:induction false} UnlinesConcat(a: seq<Text>, b: seq<Text>)
    ensures Unlines(a + b) == Unlines(a) + Unlines(b)
  {
    if a == [] {
      assert a + b == b;
    } else {
      UnlinesConcat(a[1..], b);
      assert (a + b)[1..] == a[1..] + b;
    }
  }

  /** A comment fits into one line. */
  predicate Note(t: Text)
  {
    t != [] && t[0] == SHARP && NL !in t && |t| <= LINE_BYTES
  }

  // ----- how a line of any length is read

  /** A line is read in pieces as long as the buffer, each one as a line of its own. */
  function Chunked(t: Text, c: Config): Config
    decreases |t|
  {
    if |t| <= LINE_BYTES then Apply(c, t) else Chunked(t[LINE_BYTES..], Apply(c, t[..LINE_BYTES]))
  }

  function Fold(lines: seq<Text>, c: Config): Config
    decreases |lines|
  {
    if lines == [] then c else Fold(lines[1..], Chunked(lines[0], c))
  }

  lemma {:induction false} LineEndAt(f: seq<Byte>, pos: nat, t: Text, rest: seq<Byte>, room: nat)
    requires pos <= |f| && f[pos..] == t + [NL] + rest && NL !in t
    ensures LineEnd(f, pos, room) == pos + if |t| < room then |t| + 1 else room
    decreases room
  {
    if room > 0 && t != [] {
      assert f[pos] == f[pos..][0] == t[0] && t[0] in t;
      assert f[pos + 1..] == f[pos..][1..] == t[1..] + [NL] + rest;
      LineEndAt(f, pos + 1, t[1..], rest, room - 1);
    } else if room > 0 {
      assert f[pos] == f[pos..][0] == NL;
    }
  }

  lemma IndexAppend(a: Text, b: Text, c: Ch)
    ensures Index(a + b, c) == if c in a then Index(a, c) else |a| + Index(b, c)
  {
    IndexIs(a + b, c, if c in a then Index(a, c) else |a| + Index(b, c));
  }

  lemma IndexIs(t: Text, c: Ch, i: nat)
    requires i <= |t| && (i < |t| ==> t[i] == c) && forall j :: 0 <= j < i ==> t[j] != c
    ensures Index(t, c) == i
  {
    var k := Index(t, c);
    assert forall j :: 0 <= j < k ==> t[j] in t[..k];
  }

  /** The newline behind a line makes no difference. */
  lemma ApplyNewline(c: Config, t: Text)
    requires NL !in t
    ensures Apply(c, t + [NL]) == Apply(c, t)
  {
    IndexAppend(t, [NL], NL);
    IndexAppend(t, [], NL);
    assert t + [] == t && (t + [NL])[..|t|] == t && t[..|t|] == t;
  }

  lemma {:induction false} LineRead(f: seq<Byte>, pos: nat, t: Text, rest: seq<Byte>, c: Config)
    requires pos <= |f| && f[pos..] == t + [NL] + rest && NL !in t
    ensures pos + |t| + 1 <= |f| && LoadFrom(f, pos, c) == LoadFrom(f, pos + |t| + 1, Chunked(t, c))
    decreases |t|
  {
    hide Apply, LoadFrom, Chunked, LineEnd, Str;
    LineEndAt(f, pos, t, rest, LINE_BYTES);
    ChunkedStep(t, c);
    assert |f[pos..]| == |t| + 1 + |rest|;
    LoadStep(f, pos, c);
    if |t| < LINE_BYTES {
      assert f[pos..pos + |t| + 1] == f[pos..][..|t| + 1] == t + [NL];
      StrOf(t + [NL]);
      ApplyNewline(c, t);
    } else {
      var u, v := t[..LINE_BYTES], t[LINE_BYTES..];
      assert f[pos..pos + LINE_BYTES] == f[pos..][..LINE_BYTES] == u;
      assert f[pos + LINE_BYTES..] == f[pos..][LINE_BYTES..] == v + [NL] + rest;
      StrOf(u);
      LineRead(f, pos + LINE_BYTES, v, rest, Apply(c, u));
      if v == [] {
        assert u == t;
        ChunkedStep([], Apply(c, t));
        ApplyEmpty(Apply(c, t));
      }
    }
  }

  lemma StrOf(t: Text)
    ensures Str(t) == t
  {
  }

  lemma LoadStep(f: seq<Byte>, pos: nat, c: Config)
    requires pos < |f|
    ensures var e := LineEnd(f, pos, LINE_BYTES); LoadFrom(f, pos, c) == LoadFrom(f, e, Apply(c, Str(f[pos..e])))
  {
  }

  lemma ChunkedStep(t: Text, c: Config)
    ensures |t| <= LINE_BYTES ==> Chunked(t, c) == Apply(c, t)
    ensures |t| >= LINE_BYTES && t[LINE_BYTES..] != [] ==> Chunked(t, c) == Chunked(t[LINE_BYTES..], Apply(c, t[..LINE_BYTES]))
  {
  }

  lemma ApplyEmpty(c: Config)
    ensures Apply(c, []) == c
  {
  }

  /** Lines without newlines in them are read one after the other. */
  lemma {:induction false} LinesRead(f: seq<Byte>, pos: nat, lines: seq<Text>, rest: seq<Byte>, c: Config)
    requires pos <= |f| && f[pos..] == Unlines(lines) + rest && forall i :: 0 <= i < |lines| ==> NL !in lines[i]
    ensures pos + |Unlines(lines)| <= |f|
    ensures LoadFrom(f, pos, c) == LoadFrom(f, pos + |Unlines(lines)|, Fold(lines, c))
    decreases |lines|
  {
    hide Chunked, LoadFrom;
    if lines != [] {
      var t := lines[0];
      assert Unlines(lines) + rest == t + [NL] + (Unlines(lines[1..]) + rest);
      LineRead(f, pos, t, Unlines(lines[1..]) + rest, c);
      assert f[pos + |t| + 1..] == f[pos..][|t| + 1..] == Unlines(lines[1..]) + rest;
      LinesRead(f, pos + |t| + 1, lines[1..], rest, Chunked(t, c));
    }
  }

  // ----- what one entry does

  /** Text that a line can start with and that an equals sign can follow. */
  predicate Plain(n: Text)
  {
    && |n| > 1 && n[0] != SHARP && n[0] != NL && n[0] != CR && n[0] != BLANK && n[|n| - 1] != BLANK
    && NL !in n && CR !in n && EQUALS !in n
  }

  lemma NamePlain(f: Field)
    ensures Plain(Name(f))
  {
    var n := Name(f);
    assert |n| <= 15 && forall i :: 0 <= i < |n| ==> n[i] == 95 || 52 <= n[i] <= 54 || 97 <= n[i] <= 122;
  }

  lemma TrimEndBlank(t: Text)
    requires |t| > 0 && t[|t| - 1] != BLANK
    ensures TrimEnd(t + [BLANK]) == t
  {
    assert (t + [BLANK])[..|t|] == t;
  }

  lemma BeforeAppend(p: Text, w: Text, c: Ch)
    requires c !in p
    ensures Before(p + w, c) == p + Before(w, c)
  {
    IndexAppend(p, w, c);
  }

  lemma SettingLine(n: Text, w: Text)
    requires Plain(n)
    ensures Line(Setting(n, w)) == Setting(n, Line(w))
  {
    var p := n + [BLANK, EQUALS, BLANK];
    assert NL !in p && CR !in p;
    hide Plain, Before;
    BeforeAppend(p, w, NL);
    BeforeAppend(p, Before(w, NL), CR);
  }

  lemma SettingParts(n: Text, v: Text)
    requires Plain(n)
    ensures var a := Setting(n, v);
            Index(a, EQUALS) == |n| + 1 && a[..|n| + 1] == n + [BLANK] && a[|n| + 2..] == [BLANK] + v
  {
    var b, r := n + [BLANK], [EQUALS, BLANK] + v;
    assert Setting(n, v) == b + r;
    IndexAppend(b, r, EQUALS);
  }

  lemma TrimFirst(v: Text)
    ensures Trim([BLANK] + v) == Trim(v)
  {
    assert ([BLANK] + v)[1..] == v;
  }

  lemma TrimName(n: Text)
    requires Plain(n)
    ensures Trim(n + [BLANK]) == n
  {
    TrimEndBlank(n);
  }

  /** A line that sets a field sets it to what the line says, without blanks around it. */
  lemma SettingApplied(c: Config, n: Text, w: Text)
    requires Plain(n)
    ensures Apply(c, Setting(n, w)) == Assign(c, n, Trim(Line(w)))
  {
    assert Setting(n, w)[0] == n[0];
    SettingFirst(n, w);
    hide Line, Index, Trim, Assign, Setting, Plain;
    SettingLine(n, w);
    SettingParts(n, Line(w));
    TrimName(n);
    TrimFirst(Line(w));
  }

  lemma SettingFirst(n: Text, w: Text)
    requires Plain(n)
    ensures var t := Setting(n, w); t != [] && t[0] != SHARP && t[0] != NL && t[0] != CR && |t| > |n| + 1
  {
  }

  lemma EntryApplied(c: Config, f: Field, w: Text)
    ensures Apply(c, Entry(f, w)) == Assign(c, Name(f), Trim(Line(w)))
  {
    hide Name, Plain, Apply, Assign, Trim, Line;
    NamePlain(f);
    SettingApplied(c, Name(f), w);
  }

  lemma NamesDiffer(f: Field, g: Field)
    ensures Name(f) == Name(g) ==> f == g
  {
  }

  function Set(c: Config, f: Field, value: Text): Config
  {
    match f
    case Interval => c.(interval := Atoi(value))
    case File => c.(file := Cap(value))
    case Enabled => c.(enabled := Flag(value))
    case Compression => c.(compression := Flag(value))
    case Crc64 => c.(crc64 := Flag(value))
    case Backup => c.(backup := Flag(value))
    case Dir => c.(dir := Cap(value))
  }

  lemma AssignIsSet(c: Config, f: Field, value: Text)
    ensures Assign(c, Name(f), value) == Set(c, f, value)
  {
    hide Name;
    NamesDiffer(f, Interval);
    NamesDiffer(f, File);
    NamesDiffer(f, Enabled);
    NamesDiffer(f, Compression);
    NamesDiffer(f, Crc64);
    NamesDiffer(f, Backup);
    NamesDiffer(f, Dir);
  }

  // ----- which texts survive

  /** Text without line ends in it and without blanks around it. */
  predicate Clean(t: Text)
  {
    NL !in t && CR !in t && (t != [] ==> t[0] != BLANK && t[|t| - 1] != BLANK)
  }

  lemma TrimmedClean(t: Text)
    ensures Clean(Trim(Line(t)))
  {
    var a := Before(t, NL);
    var l := Before(a, CR);
    var u := TrimStart(l);
    var v := TrimEnd(u);
    forall i | 0 <= i < |v| ensures v[i] != NL && v[i] != CR {
      assert v[i] == u[i] == l[|l| - |u| + i];
      assert l[|l| - |u| + i] in l && l[|l| - |u| + i] in a;
    }
  }

  lemma CleanKept(t: Text)
    requires Clean(t)
    ensures Trim(Line(t)) == t
  {
    IndexAppend(t, [], NL);
    IndexAppend(t, [], CR);
    assert t + [] == t && t[..|t|] == t;
  }

  lemma ValueShorter(c: Config, t: Text)
    ensures var d := Apply(c, t);
            && (d.file == c.file || (|d.file| < |t| && (|t| <= LINE_BYTES ==> Clean(d.file))))
            && (d.dir == c.dir || (|d.dir| < |t| && (|t| <= LINE_BYTES ==> Clean(d.dir))))
  {
    hide Name, Line, Trim, Clean, Index, Assign;
    var a := Line(t);
    var i := Index(a, EQUALS);
    if i < |a| {
      ValueClean(t, i + 1);
      AssignPaths(c, Trim(a[..i]), Trim(a[i + 1..]));
    }
  }

  lemma AssignPaths(c: Config, key: Text, value: Text)
    ensures var d := Assign(c, key, value);
            (d.file == c.file || d.file == Cap(value)) && (d.dir == c.dir || d.dir == Cap(value))
  {
    hide Name;
  }

  lemma ValueClean(t: Text, i: nat)
    requires i <= |Line(t)|
    ensures Clean(Trim(Line(t)[i..])) && |Trim(Line(t)[i..])| <= |t| - i
  {
    var a, l := Before(t, NL), Line(t);
    var b := l[i..];
    assert NL !in b && CR !in b by {
      forall j | 0 <= j < |b| ensures b[j] != NL && b[j] != CR {
        assert b[j] == l[i + j] && l[i + j] in l && l[i + j] in a;
      }
    }
    IndexAppend(b, [], NL);
    IndexAppend(b, [], CR);
    assert b + [] == b && b[..|b|] == b && Line(b) == b;
    TrimmedClean(b);
  }

  /** A path that is read back: clean, and short enough for its line. */
  predicate PathFits(f: Field, t: Text)
  {
    Clean(t) && |Entry(f, t)| <= LINE_BYTES
  }

  // ----- the paths that come back are clean

  lemma {:induction false} CleanStays(f: seq<Byte>, pos: nat, c: Config)
    requires pos <= |f|
    ensures Clean(c.file) ==> Clean(LoadFrom(f, pos, c).file)
    ensures Clean(c.dir) ==> Clean(LoadFrom(f, pos, c).dir)
    decreases |f| - pos
  {
    hide Clean, Apply, Str, LineEnd;
    if pos < |f| {
      var e := LineEnd(f, pos, LINE_BYTES);
      var t := Str(f[pos..e]);
      ValueShorter(c, t);
      CleanStays(f, e, Apply(c, t));
    }
  }

  lemma {:induction false} LineEndPast(f: seq<Byte>, pos: nat, k: nat, room: nat)
    requires pos + k <= |f| && k <= room && NL !in f[pos..pos + k]
    ensures LineEnd(f, pos, room) >= pos + k
    decreases room
  {
    if k > 0 {
      assert f[pos] == f[pos..pos + k][0];
      assert f[pos + 1..pos + k] == f[pos..pos + k][1..];
      LineEndPast(f, pos + 1, k - 1, room - 1);
    }
  }

  lemma {:induction false} LineEndBound(f: seq<Byte>, pos: nat, j: nat, room: nat)
    requires pos <= j < |f| && f[j] == NL
    ensures LineEnd(f, pos, room) <= j + 1
    decreases room
  {
    if room > 0 && f[pos] != NL {
      LineEndBound(f, pos + 1, j, room - 1);
    }
  }

  /** Whatever follows its equals sign, an entry is read as one for its field. */
  lemma EntryRead(f: seq<Byte>, pos: nat, fld: Field, p: Text, rest: seq<Byte>, c: Config) returns (e: nat, w: Text)
    requires pos <= |f| && f[pos..] == Entry(fld, p) + [NL] + rest
    ensures e <= |f| && |w| <= LINE_BYTES && LoadFrom(f, pos, c) == LoadFrom(f, e, Set(c, fld, Trim(Line(w))))
  {
    hide LoadFrom, Apply, Set, LineEnd, Str, Assign, Trim, Line;
    var t, k := Entry(fld, p), |Name(fld)| + 3;
    var tail := f[pos..];
    assert |tail| == |t| + 1 + |rest|;
    EntryFront(fld, p);
    assert f[pos..pos + k] == tail[..k] == t[..k];
    LineEndPast(f, pos, k, LINE_BYTES);
    assert f[pos + |t|] == tail[|t|] == NL;
    LineEndBound(f, pos, pos + |t|, LINE_BYTES);
    e := LineEnd(f, pos, LINE_BYTES);
    assert e <= pos + LINE_BYTES by {
      LineEndRoom(f, pos);
    }
    w := (t + [NL])[k..e - pos];
    assert f[pos..e] == tail[..e - pos] == (t + [NL])[..e - pos];
    assert (t + [NL])[..e - pos] == Entry(fld, w);
    StrOf(Entry(fld, w));
    LoadStep(f, pos, c);
    EntryApplied(c, fld, w);
    AssignIsSet(c, fld, Trim(Line(w)));
  }

  lemma LineEndRoom(f: seq<Byte>, pos: nat)
    requires pos <= |f|
    ensures LineEnd(f, pos, LINE_BYTES) <= pos + LINE_BYTES
  {
  }

  lemma EntryFront(f: Field, p: Text)
    ensures var t, k := Entry(f, p), |Name(f)| + 3;
            k <= |t| && k <= LINE_BYTES && t[..k] == Name(f) + [BLANK, EQUALS, BLANK] && NL !in t[..k]
            && forall w :: Entry(f, w)[..k] == t[..k]
  {
    assert Entry(f, p)[..|Name(f)| + 3] == Name(f) + [BLANK, EQUALS, BLANK];
    forall w ensures Entry(f, w)[..|Name(f)| + 3] == Name(f) + [BLANK, EQUALS, BLANK] {
    }
  }

  /** The path in a file or directory entry is clean once it has been read. */
  lemma PathEntryClean(f: seq<Byte>, pos: nat, p: Text, rest: seq<Byte>, c: Config)
    requires pos <= |f|
    ensures f[pos..] == Entry(File, p) + [NL] + rest ==> Clean(LoadFrom(f, pos, c).file)
    ensures f[pos..] == Entry(Dir, p) + [NL] + rest ==> Clean(LoadFrom(f, pos, c).dir)
  {
    hide LoadFrom, Entry, Trim, Line, Clean;
    if f[pos..] == Entry(File, p) + [NL] + rest {
      var e, w := EntryRead(f, pos, File, p, rest, c);
      TrimmedClean(w);
      TrimmedShort(w);
      CleanStays(f, e, Set(c, File, Trim(Line(w))));
    }
    if f[pos..] == Entry(Dir, p) + [NL] + rest {
      var e, w := EntryRead(f, pos, Dir, p, rest, c);
      TrimmedClean(w);
      TrimmedShort(w);
      CleanStays(f, e, Set(c, Dir, Trim(Line(w))));
    }
  }

  lemma TrimmedShort(w: Text)
    ensures |Trim(Line(w))| <= |w|
  {
  }

  // ----- the lines around the paths

  lemma NoteSkipped(note: Text, c: Config)
    requires Note(note)
    ensures Chunked(note, c) == c
  {
  }

  lemma EntryChunked(f: Field, v: Text, c: Config)
    requires PathFits(f, v)
    ensures Chunked(Entry(f, v), c) == Set(c, f, v)
  {
    hide Apply, Entry, Trim, Line, Set, Assign;
    EntryApplied(c, f, v);
    AssignIsSet(c, f, v);
    CleanKept(v);
  }

  lemma EmptyChunked(c: Config)
    ensures Chunked([], c) == c
  {
    ApplyEmpty(c);
  }

  lemma BlockFold(note: Text, f: Field, v: Text, rest: seq<Text>, c: Config)
    requires Note(note) && PathFits(f, v)
    ensures Fold(Block(note, f, v) + rest, c) == Fold(rest, Set(c, f, v))
  {
    hide Chunked, Entry, Set, Note;
    var e := Entry(f, v);
    NoteSkipped(note, c);
    EntryChunked(f, v, c);
    EmptyChunked(Set(c, f, v));
    FoldStep(note, [e, []] + rest, c);
    assert Block(note, f, v) + rest == [note] + ([e, []] + rest);
    assert [e, []] + rest == [e] + ([[]] + rest);
    FoldStep(e, [[]] + rest, c);
    FoldStep([], rest, Set(c, f, v));
  }

  lemma FoldStep(t: Text, rest: seq<Text>, c: Config)
    ensures Fold([t] + rest, c) == Fold(rest, Chunked(t, c))
  {
    assert ([t] + rest)[1..] == rest;
  }

  function Pow10(k: nat): nat
  {
    if k == 0 then 1 else 10 * Pow10(k - 1)
  }

  lemma {:induction false} DigitsShort(n: nat, k: nat)
    requires n < Pow10(k) && k >= 1
    ensures |Digits(n)| <= k
  {
    if n >= 10 {
      assert Pow10(1) == 10;
      DigitsShort(n / 10, k - 1);
    }
  }

  predicate Int32(n: int)
  {
    -0x8000_0000 <= n < 0x8000_0000
  }

  lemma IntFits(n: int)
    requires Int32(n)
    ensures PathFits(Interval, PrintInt(n))
  {
    assert Pow10(10) == 10000000000;
    DigitsShort(if n < 0 then -n else n, 10);
    var d := Digits(if n < 0 then -n else n);
    var t := PrintInt(n);
    assert forall i :: 0 <= i < |t| ==> t[i] == 45 || 48 <= t[i] <= 57;
  }

  lemma YesNoFits(f: Field, flag: int)
    ensures PathFits(f, YesNo(flag)) && Flag(YesNo(flag)) == if flag != 0 then 1 else 0
  {
  }

  lemma FoldNote(note: Text, rest: seq<Text>, c: Config)
    requires Note(note) || note == []
    ensures Fold([note] + rest, c) == Fold(rest, c)
  {
    FoldStep(note, rest, c);
    if note == [] {
      EmptyChunked(c);
    } else {
      NoteSkipped(note, c);
    }
  }

  lemma HeadFold(c: Config, notes: seq<Text>, rest: seq<Text>, g: Config)
    requires |notes| == 10 && (forall i :: 0 <= i < 10 ==> Note(notes[i])) && Int32(c.interval)
    ensures Fold(Head(c, notes) + rest, g) == Fold(rest, g.(interval := c.interval))
  {
    hide Fold, Block, Note, Int32, Apply, PathFits, PrintInt, Atoi;
    var b := Block(notes[3], Interval, PrintInt(c.interval));
    var r4 := [notes[4]] + rest;
    var r3 := b + r4;
    var r2 := [[]] + r3;
    var r1 := [notes[2]] + r2;
    var r0 := [notes[1]] + r1;
    assert Head(c, notes) + rest == [notes[0]] + r0;
    FoldNote(notes[0], r0, g);
    FoldNote(notes[1], r1, g);
    FoldNote(notes[2], r2, g);
    FoldNote([], r3, g);
    IntFits(c.interval);
    IntRoundTrip(c.interval);
    BlockFold(notes[3], Interval, PrintInt(c.interval), r4, g);
    FoldNote(notes[4], rest, Set(g, Interval, PrintInt(c.interval)));
  }

  function Norm(flag: int): int
  {
    if flag != 0 then 1 else 0
  }

  lemma MiddleFold(c: Config, notes: seq<Text>, rest: seq<Text>, g: Config)
    requires |notes| == 10 && forall i :: 0 <= i < 10 ==> Note(notes[i])
    ensures Fold(Middle(c, notes) + rest, g)
         == Fold(rest, g.(enabled := Norm(c.enabled), compression := Norm(c.compression),
                          crc64 := Norm(c.crc64), backup := Norm(c.backup)))
  {
    hide Fold, Block, Note, Apply, PathFits, YesNo, Flag;
    var b1, b2 := Block(notes[5], Enabled, YesNo(c.enabled)), Block(notes[6], Compression, YesNo(c.compression));
    var b3, b4 := Block(notes[7], Crc64, YesNo(c.crc64)), Block(notes[8], Backup, YesNo(c.backup));
    var r4 := [notes[9]] + rest;
    assert Middle(c, notes) + rest == [[]] + (b1 + (b2 + (b3 + (b4 + r4))));
    FoldNote([], b1 + (b2 + (b3 + (b4 + r4))), g);
    YesNoFits(Enabled, c.enabled);
    YesNoFits(Compression, c.compression);
    YesNoFits(Crc64, c.crc64);
    YesNoFits(Backup, c.backup);
    BlockFold(notes[5], Enabled, YesNo(c.enabled), b2 + (b3 + (b4 + r4)), g);
    var g1 := Set(g, Enabled, YesNo(c.enabled));
    BlockFold(notes[6], Compression, YesNo(c.compression), b3 + (b4 + r4), g1);
    var g2 := Set(g1, Compression, YesNo(c.compression));
    BlockFold(notes[7], Crc64, YesNo(c.crc64), b4 + r4, g2);
    var g3 := Set(g2, Crc64, YesNo(c.crc64));
    BlockFold(notes[8], Backup, YesNo(c.backup), r4, g3);
    FoldNote(notes[9], rest, Set(g3, Backup, YesNo(c.backup)));
  }

  // ----- a path that is too long for its line

  lemma {:induction false} ChunkedShorter(t: Text, c: Config)
    ensures Chunked(t, c).file == c.file || |Chunked(t, c).file| < |t|
    ensures Chunked(t, c).dir == c.dir || |Chunked(t, c).dir| < |t|
    decreases |t|
  {
    hide Apply;
    if |t| <= LINE_BYTES {
      ValueShorter(c, t);
    } else {
      ValueShorter(c, t[..LINE_BYTES]);
      ChunkedShorter(t[LINE_BYTES..], Apply(c, t[..LINE_BYTES]));
    }
  }

  /** A path that does not fit is read back shorter than it was. */
  lemma LongEntry(f: Field, p: Text, c: Config)
    requires |Entry(f, p)| > LINE_BYTES
    ensures f == File ==> |Chunked(Entry(f, p), c).file| < |p|
    ensures f == Dir ==> |Chunked(Entry(f, p), c).dir| < |p|
  {
    hide Apply, Trim, Line, Set, Name;
    var t, k := Entry(f, p), |Name(f)| + 3;
    EntryFront(f, p);
    var w := p[..LINE_BYTES - k];
    assert t[..LINE_BYTES] == Entry(f, w) && t[LINE_BYTES..] == p[LINE_BYTES - k..];
    var d := Apply(c, t[..LINE_BYTES]);
    EntryApplied(c, f, w);
    AssignIsSet(c, f, Trim(Line(w)));
    SetShort(f, w, c);
    ChunkedShorter(t[LINE_BYTES..], d);
    NameLong(f);
  }

  lemma NameLong(f: Field)
    ensures |Name(f)| + 3 < LINE_BYTES
  {
  }

  lemma SetShort(f: Field, w: Text, c: Config)
    ensures f == File ==> |Set(c, f, Trim(Line(w))).file| <= |w|
    ensures f == Dir ==> |Set(c, f, Trim(Line(w))).dir| <= |w|
  {
    TrimmedShort(w);
  }

  // ----- the round trip

  ghost predicate Writable(c: Config, notes: seq<Text>)
  {
    |notes| == 10 && (forall i :: 0 <= i < 10 ==> Note(notes[i])) && Int32(c.interval)
  }

  function FileText(c: Config, notes: seq<Text>): seq<Byte>
    requires |notes| == 10
  {
    Unlines(Lines(c, notes))
  }

  lemma EntryOneLine(f: Field, v: Text)
    requires NL !in v
    ensures NL !in Entry(f, v)
  {
    NamePlain(f);
  }

  /** Lines that hold no path hold no newline. */
  lemma OneLiners(c: Config, notes: seq<Text>)
    requires Writable(c, notes)
    ensures forall i :: 0 <= i < |Head(c, notes)| ==> NL !in Head(c, notes)[i]
    ensures forall i :: 0 <= i < |Middle(c, notes)| ==> NL !in Middle(c, notes)[i]
  {
    hide Entry, PrintInt, Int32;
    IntFits(c.interval);
    EntryOneLine(Interval, PrintInt(c.interval));
    EntryOneLine(Enabled, YesNo(c.enabled));
    EntryOneLine(Compression, YesNo(c.compression));
    EntryOneLine(Crc64, YesNo(c.crc64));
    EntryOneLine(Backup, YesNo(c.backup));
  }

  lemma UnlinesOne(t: Text, rest: seq<Text>)
    ensures Unlines([t] + rest) == t + [NL] + Unlines(rest)
  {
    assert ([t] + rest)[1..] == rest;
  }

  /** The file path read back is clean, whatever was printed; if that was clean, so is the directory. */
  lemma LoadedClean(c: Config, notes: seq<Text>, g: Config)
    requires Writable(c, notes)
    ensures Clean(LoadFrom(FileText(c, notes), 0, g).file)
    ensures Clean(c.file) ==> Clean(LoadFrom(FileText(c, notes), 0, g).dir)
  {
    hide Head, Middle, Entry, LoadFrom, Note, Unlines, Int32;
    var f, h, m := FileText(c, notes), Head(c, notes), Middle(c, notes);
    var tail := [Entry(File, c.file)] + (m + [Entry(Dir, c.dir)]);
    OneLiners(c, notes);
    assert Lines(c, notes) == h + tail;
    UnlinesConcat(h, tail);
    UnlinesOne(Entry(File, c.file), m + [Entry(Dir, c.dir)]);
    assert f[0..] == f;
    LinesRead(f, 0, h, Unlines(tail), g);
    var pos := |Unlines(h)|;
    assert f[pos..] == Unlines(tail);
    PathEntryClean(f, pos, c.file, Unlines(m + [Entry(Dir, c.dir)]), Fold(h, g));
    if Clean(c.file) {
      var pre := h + [Entry(File, c.file)] + m;
      EntryOneLine(File, c.file);
      assert forall i :: 0 <= i < |pre| ==> NL !in pre[i];
      assert Lines(c, notes) == pre + [Entry(Dir, c.dir)];
      UnlinesConcat(pre, [Entry(Dir, c.dir)]);
      UnlinesOne(Entry(Dir, c.dir), []);
      assert [Entry(Dir, c.dir)] + [] == [Entry(Dir, c.dir)];
      LinesRead(f, 0, pre, Unlines([Entry(Dir, c.dir)]), g);
      var at := |Unlines(pre)|;
      assert f[at..] == Entry(Dir, c.dir) + [NL] + Unlines([]);
      PathEntryClean(f, at, c.dir, Unlines([]), Fold(pre, g));
    }
  }

  /** With paths of one line each, loading is a matter of two lines. */
  lemma LoadedIs(c: Config, notes: seq<Text>, g: Config)
    requires Writable(c, notes) && NL !in c.file && NL !in c.dir
    ensures var d := Chunked(Entry(File, c.file), g.(interval := c.interval));
            (LoadFrom(FileText(c, notes), 0, g)
             == Chunked(Entry(Dir, c.dir), d.(enabled := Norm(c.enabled), compression := Norm(c.compression),
                                             crc64 := Norm(c.crc64), backup := Norm(c.backup))))
  {
    hide Head, Middle, Entry, LoadFrom, Unlines, Fold, Chunked, Int32, Note;
    var f, h, m, ls := FileText(c, notes), Head(c, notes), Middle(c, notes), Lines(c, notes);
    var a, b := Entry(File, c.file), Entry(Dir, c.dir);
    OneLiners(c, notes);
    EntryOneLine(File, c.file);
    EntryOneLine(Dir, c.dir);
    assert f[0..] == Unlines(ls) + [];
    assert forall i :: 0 <= i < |ls| ==> NL !in ls[i];
    LinesRead(f, 0, ls, [], g);
    LoadEnd(f, Fold(ls, g));
    assert ls == h + ([a] + (m + ([b] + [])));
    HeadFold(c, notes, [a] + (m + ([b] + [])), g);
    var g1 := g.(interval := c.interval);
    FoldStep(a, m + ([b] + []), g1);
    MiddleFold(c, notes, [b] + [], Chunked(a, g1));
    var g2 := Chunked(a, g1).(enabled := Norm(c.enabled), compression := Norm(c.compression),
                              crc64 := Norm(c.crc64), backup := Norm(c.backup));
    FoldStep(b, [], g2);
    FoldEnd(Chunked(b, g2));
  }

  lemma LoadEnd(f: seq<Byte>, c: Config)
    ensures LoadFrom(f, |f|, c) == c
  {
  }

  lemma FoldEnd(c: Config)
    ensures Fold([], c) == c
  {
  }

  predicate ZeroOne(n: int)
  {
    n == 0 || n == 1
  }

  /** Reading the printed configuration gives it back, whatever was set before, exactly when the four
      flags are 0 or 1 and both paths have no line end in them, no blank around them, and room in
      their line. */
  lemma ConfigIff(c: Config, notes: seq<Text>, g: Config)
    requires Writable(c, notes)
    ensures LoadFrom(FileText(c, notes), 0, g) == c
            <==> PathFits(File, c.file) && PathFits(Dir, c.dir)
                 && ZeroOne(c.enabled) && ZeroOne(c.compression) && ZeroOne(c.crc64) && ZeroOne(c.backup)
  {
    hide Entry, LoadFrom, Chunked, FileText, Int32, Set, Note;
    var r := LoadFrom(FileText(c, notes), 0, g);
    if r == c {
      LoadedClean(c, notes, g);
    }
    if Clean(c.file) && Clean(c.dir) {
      var g1 := g.(interval := c.interval);
      LoadedIs(c, notes, g);
      if |Entry(File, c.file)| <= LINE_BYTES {
        EntryChunked(File, c.file, g1);
        EntryLonger(File, c.file);
      } else {
        LongEntry(File, c.file, g1);
      }
      var g2 := Chunked(Entry(File, c.file), g1).(enabled := Norm(c.enabled), compression := Norm(c.compression),
                                                  crc64 := Norm(c.crc64), backup := Norm(c.backup));
      if |Entry(Dir, c.dir)| <= LINE_BYTES {
        EntryChunked(Dir, c.dir, g2);
        EntryLonger(Dir, c.dir);
      } else {
        LongEntry(Dir, c.dir, g2);
      }
      SetPaths(c.file, c.dir, g1, g2);
    }
  }

  lemma EntryLonger(f: Field, v: Text)
    ensures |Entry(f, v)| == |Name(f)| + 3 + |v|
  {
  }

  lemma SetPaths(file: Text, dir: Text, c: Config, d: Config)
    ensures |file| <= LINE_BYTES ==> Set(c, File, file) == c.(file := file)
    ensures |dir| <= LINE_BYTES ==> Set(d, Dir, dir) == d.(dir := dir)
  {
  }

  /** The room is 244 bytes for the file and 242 for the directory. */
  lemma PathRoom(t: Text)
    ensures PathFits(File, t) <==> Clean(t) && |t| <= 244
    ensures PathFits(Dir, t) <==> Clean(t) && |t| <= 242
  {
  }
}