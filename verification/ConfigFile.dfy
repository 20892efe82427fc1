/** rdb_config_save and rdb_config_load on the global settings and a file cursor. */
module ConfigFile {
  import opened Text
  import opened Framing
  import opened RdbFormat
  import opened ConfigFormat
  import RdbFile

  /** fgets, one character after the other. */
  method Fgets(fp: RdbFile.File, room: nat) returns (line: seq<Byte>)
    requires fp.Valid()
    modifies fp`pos
    ensures fp.Valid() && fp.pos == LineEnd(fp.bytes, old(fp.pos), room)
    ensures line == fp.bytes[old(fp.pos)..fp.pos]
  {
    ghost var pos := fp.pos;
    line := [];
    while |line| < room && fp.pos < |fp.bytes|
      invariant fp.Valid() && pos <= fp.pos && |line| == fp.pos - pos <= room
      invariant line == fp.bytes[pos..fp.pos]
      invariant LineEnd(fp.bytes, pos, room) == LineEnd(fp.bytes, fp.pos, room - |line|)
    {
      var c := fp.bytes[fp.pos];
      fp.pos := fp.pos + 1;
      line := line + [c];
      if c == NL {
        return;
      }
    }
  }

  /** The two loops that move a string's ends past blanks. */
  method StripBlanks(t: Text) returns (r: Text)
    ensures r == Trim(t)
  {
    r := t;
    while r != [] && r[0] == BLANK
      invariant TrimStart(r) == TrimStart(t)
      decreases |r|
    {
      r := r[1..];
    }
    ghost var s := r;
    while |r| > 1 && r[|r| - 1] == BLANK
      invariant TrimEnd(r) == TrimEnd(s)
      decreases |r|
    {
      r := r[..|r| - 1];
    }
  }

  /** fprintf of a comment and, if there is one, of an entry and an empty line. */
  method Print(fp: RdbFile.File, lines: seq<Text>, ghost before: seq<Text>)
    requires fp.Valid() && fp.pos == |fp.bytes| && fp.bytes == Unlines(before)
    modifies fp
    ensures fp.Valid() && fp.pos == |fp.bytes| && fp.bytes == Unlines(before + lines)
  {
    UnlinesConcat(before, lines);
    fp.Write(Unlines(lines));
  }

  class Settings {
    var interval: int
    var file: Text
    var enabled: int
    var compression: int
    var crc64: int
    var backup: int
    var dir: Text

    function Snapshot(): Config
      reads this
    {
      Config(interval, file, enabled, compression, crc64, backup, dir)
    }

    /** rdb_config_save */
    method Save(fp: RdbFile.File, notes: seq<Text>)
      requires |notes| == 10 && fp.bytes == [] && fp.pos == 0
      modifies fp
      ensures fp.bytes == FileText(Snapshot(), notes)
    {
      hide Entry, Block, Unlines;
      ghost var c := Snapshot();
      assert Unlines([]) == [] by {
        UnlinesNone();
      }
      var p0, p1 := [notes[0], notes[1], notes[2], []], Block(notes[3], Interval, PrintInt(interval));
      var p2, p3 := Block(notes[4], File, file), Block(notes[5], Enabled, YesNo(enabled));
      var p4, p5 := Block(notes[6], Compression, YesNo(compression)), Block(notes[7], Crc64, YesNo(crc64));
      var p6, p7 := Block(notes[8], Backup, YesNo(backup)), [notes[9], Entry(Dir, dir)];
      assert [] + p0 == p0;
      Print(fp, p0, []);
      Print(fp, p1, p0);
      Print(fp, p2, p0 + p1);
      Print(fp, p3, p0 + p1 + p2);
      Print(fp, p4, p0 + p1 + p2 + p3);
      Print(fp, p5, p0 + p1 + p2 + p3 + p4);
      Print(fp, p6, p0 + p1 + p2 + p3 + p4 + p5);
      Print(fp, p7, p0 + p1 + p2 + p3 + p4 + p5 + p6);
      LinesPrinted(c, notes);
    }

    /** rdb_config_load */
    method Load(fp: RdbFile.File)
      requires fp.Valid() && fp.pos == 0
      modifies this, fp`pos
      ensures Snapshot() == LoadFrom(fp.bytes, 0, old(Snapshot()))
    {
      ghost var c := Snapshot();
      while fp.pos < |fp.bytes|
        invariant fp.Valid()
        invariant LoadFrom(fp.bytes, 0, c) == LoadFrom(fp.bytes, fp.pos, Snapshot())
        decreases |fp.bytes| - fp.pos
      {
        ghost var pos, now := fp.pos, Snapshot();
        LoadStep(fp.bytes, pos, now);
        var line := Fgets(fp, LINE_BYTES);
        ReadLine(Str(line));
      }
    }

    /** What one turn of the loop does with a line. */
    method ReadLine(line: Text)
      modifies this
      ensures Snapshot() == Apply(old(Snapshot()), line)
    {
      hide Name, Line, Trim, Index, Atoi, Cap, Flag;
      if line != [] && (line[0] == SHARP || line[0] == NL || line[0] == CR) {
        return;
      }
      var a := Line(line);
      var i := Index(a, EQUALS);
      if i == |a| {
        return;
      }
      var key := StripBlanks(a[..i]);
      var value := StripBlanks(a[i + 1..]);
      if key == Name(Interval) {
        interval := Atoi(value);
      } else if key == Name(File) {
        file := Cap(value);
      } else if key == Name(Enabled) {
        enabled := Flag(value);
      } else if key == Name(Compression) {
        compression := Flag(value);
      } else if key == Name(Backup) {
        backup := Flag(value);
      } else if key == Name(Dir) {
        dir := Cap(value);
      } else if key == Name(Crc64) {
        crc64 := Flag(value);
      }
    }
  }

  lemma UnlinesNone()
    ensures Unlines([]) == []
  {
  }

  lemma LinesPrinted(c: Config, notes: seq<Text>)
    requires |notes| == 10
    ensures Lines(c, notes) == [notes[0], notes[1], notes[2], []] + Block(notes[3], Interval, PrintInt(c.interval))
                               + Block(notes[4], File, c.file) + Block(notes[5], Enabled, YesNo(c.enabled))
                               + Block(notes[6], Compression, YesNo(c.compression)) + Block(notes[7], Crc64, YesNo(c.crc64))
                               + Block(notes[8], Backup, YesNo(c.backup)) + [notes[9], Entry(Dir, c.dir)]
  {
    hide Entry;
  }
}