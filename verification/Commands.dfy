// disktool_cmd.c: the command line of start_disktool, from a typed line to an action.
module Commands {
  import opened Bytes
  import opened CStrings
  import opened Numbers
  import opened Screens
  import opened Editor

  datatype FileSystemType = FAT32 | EXT4

  datatype Command =
    | Blank | Help | ListDisks | Update | PartInfo | Exit | Unknown
    | Format(fs: FileSystemType)
    | SelectDisk(index: int)
    | NewPart(mb: uint32, fs: FileSystemType)
    | DelPart(index: int)

  const BLANK: byte := 32  // ' '

  function Ascii(s: string): (t: seq<byte>)
    ensures |t| == |s|
  {
    seq(|s|, i requires 0 <= i < |s| => s[i] as int % 256)
  }

  predicate HasPrefix(t: seq<byte>, p: seq<byte>) { |p| <= |t| && t[..|p|] == p }

  function FsOf(t: seq<byte>): FileSystemType { if t == Ascii("ext4") then EXT4 else FAT32 }

  lemma FsMeaning(t: seq<byte>)
    ensures FsOf(t) == if t == [101, 120, 116, 52] then EXT4 else FAT32
  {
    assert Ascii("ext4") == [101, 120, 116, 52];
  }

  /** strtoul in base 10, as a function of the text. */
  function Number(t: seq<byte>): uint32 { Value(t[..PrefixLen(t, 10)], 10) % U32 }

  /** uint32_t converted to int. */
  function ToInt(n: uint32): int { if n < 0x8000_0000 then n else n - U32 }

  /** Where the first blank is; |t| when there is none. */
  function BlankAt(t: seq<byte>): (k: nat)
    ensures k <= |t| && BLANK !in t[..k] && (k < |t| ==> t[k] == BLANK)
  {
    if t == [] || t[0] == BLANK then 0 else 1 + BlankAt(t[1..])
  }

  function NewPartOf(t: seq<byte>): Command {
    var k := BlankAt(t);
    NewPart(Number(t[..k]), if k < |t| then FsOf(t[k + 1..]) else FAT32)
  }

  /** What a command line means. */
  function CommandOf(t: seq<byte>): Command {
    if t == [] then Blank
    else if t == Ascii("help") then Help
    else if t == Ascii("listdisks") then ListDisks
    else if t == Ascii("update") then Update
    else if t == Ascii("format") then Format(EXT4)
    else if HasPrefix(t, Ascii("format ")) then Format(FsOf(t[7..]))
    else if HasPrefix(t, Ascii("selectdisk ")) then SelectDisk(ToInt(Number(t[11..])))
    else if HasPrefix(t, Ascii("newpart ")) then NewPartOf(t[8..])
    else if HasPrefix(t, Ascii("delpart ")) then DelPart(ToInt(Number(t[8..])))
    else if t == Ascii("partinfo") then PartInfo
    else if t == Ascii("exit") then Exit
    else Unknown
  }

  // ----- round trip -----

  lemma {:induction false} BlankAfter(d: seq<byte>, rest: seq<byte>)
    requires BLANK !in d && (rest == [] || rest[0] == BLANK)
    ensures BlankAt(d + rest) == |d|
  {
    if d == [] {
      assert d + rest == rest;
    } else {
      assert (d + rest)[1..] == d[1..] + rest;
      BlankAfter(d[1..], rest);
    }
  }

  lemma NumberOfDigits(n: uint32)
    ensures Number(Digits(n, 10)) == n && BLANK !in Digits(n, 10)
    ensures forall i :: 0 <= i < |Digits(n, 10)| ==> 48 <= Digits(n, 10)[i] <= 57
  {
    var d := Digits(n, 10);
    DigitsValue(n, 10);
    ParseUndoesPrint(n, 10, []);
    assert d + [] == d;
    assert forall i :: 0 <= i < |d| ==> IsDigit(d[i], 10);
  }

  lemma NewPartFields(n: uint32, fs: seq<byte>)
    ensures NewPartOf(Digits(n, 10) + [BLANK] + fs) == NewPart(n, FsOf(fs))
    ensures NewPartOf(Digits(n, 10)) == NewPart(n, FAT32)
  {
    var d := Digits(n, 10);
    NumberOfDigits(n);
    BlankAfter(d, [BLANK] + fs);
    assert d + ([BLANK] + fs) == d + [BLANK] + fs;
    assert (d + [BLANK] + fs)[..|d|] == d && (d + [BLANK] + fs)[|d| + 1..] == fs;
    BlankAfter(d, []);
    assert d + [] == d && d[..|d|] == d;
  }

  lemma OtherPrefix(t: seq<byte>, p: seq<byte>)
    requires t != [] && p != [] && t[0] != p[0]
    ensures !HasPrefix(t, p)
  {
    assert |p| <= |t| ==> t[..|p|][0] == t[0];
  }

  lemma NewPartDispatch(rest: seq<byte>)
    ensures CommandOf(Ascii("newpart ") + rest) == NewPartOf(rest)
  {
    var t := Ascii("newpart ") + rest;
    assert t[0] == 110 && t[1] == 101;
    assert Ascii("help")[0] == 104 && Ascii("listdisks")[0] == 108 && Ascii("update")[0] == 117;
    assert Ascii("format")[0] == 102 && Ascii("format ")[0] == 102 && Ascii("selectdisk ")[0] == 115;
    OtherPrefix(t, Ascii("format "));
    OtherPrefix(t, Ascii("selectdisk "));
    assert t[..8] == Ascii("newpart ") && t[8..] == rest;
  }

  /** Printing a size in decimal into a newpart line and reading the line back gives that size and type. */
  lemma NewPartRoundTrip(n: uint32, fs: seq<byte>)
    ensures CommandOf(Ascii("newpart ") + Digits(n, 10) + [BLANK] + fs)
         == NewPart(n, if fs == [101, 120, 116, 52] then EXT4 else FAT32)
    ensures CommandOf(Ascii("newpart ") + Digits(n, 10)) == NewPart(n, FAT32)
  {
    hide *;
    FsMeaning(fs);
    NewPartFields(n, fs);
    NewPartDispatch(Digits(n, 10) + [BLANK] + fs);
    NewPartDispatch(Digits(n, 10));
    assert Ascii("newpart ") + (Digits(n, 10) + [BLANK] + fs) == Ascii("newpart ") + Digits(n, 10) + [BLANK] + fs;
  }

  lemma HeadsOf()
    ensures Ascii("help")[0] == 104 && Ascii("listdisks")[0] == 108 && Ascii("update")[0] == 117
    ensures Ascii("format")[0] == 102 && Ascii("format ")[0] == 102 && Ascii("selectdisk ")[0] == 115
    ensures Ascii("newpart ")[0] == 110 && Ascii("delpart ")[0] == 100
    ensures Ascii("partinfo")[0] == 112 && Ascii("exit")[0] == 101
  {
  }

  lemma SelectDiskDispatch(rest: seq<byte>)
    ensures CommandOf(Ascii("selectdisk ") + rest) == SelectDisk(ToInt(Number(rest)))
  {
    var t := Ascii("selectdisk ") + rest;
    hide Ascii, Number;
    HeadsOf();
    assert t[0] == Ascii("selectdisk ")[0];
    OtherPrefix(t, Ascii("format "));
    assert t[..11] == Ascii("selectdisk ") && t[11..] == rest;
  }

  lemma DelPartDispatch(rest: seq<byte>)
    ensures CommandOf(Ascii("delpart ") + rest) == DelPart(ToInt(Number(rest)))
  {
    var t := Ascii("delpart ") + rest;
    hide Ascii, Number;
    HeadsOf();
    assert t[0] == Ascii("delpart ")[0];
    OtherPrefix(t, Ascii("format "));
    OtherPrefix(t, Ascii("selectdisk "));
    OtherPrefix(t, Ascii("newpart "));
    assert t[..8] == Ascii("delpart ") && t[8..] == rest;
  }

  lemma FormatDispatch(rest: seq<byte>)
    ensures CommandOf(Ascii("format ") + rest) == Format(FsOf(rest))
  {
    var t := Ascii("format ") + rest;
    hide Ascii, FsOf;
    HeadsOf();
    assert t[0] == Ascii("format ")[0];
    assert t[..7] == Ascii("format ") && t[7..] == rest;
    assert |t| > |Ascii("format")|;
  }

  /** The other commands with an argument: a printed number comes back as the int it converts to. */
  lemma ArgumentRoundTrips(n: uint32, fs: seq<byte>)
    ensures CommandOf(Ascii("selectdisk ") + Digits(n, 10)) == SelectDisk(ToInt(n))
    ensures CommandOf(Ascii("delpart ") + Digits(n, 10)) == DelPart(ToInt(n))
    ensures CommandOf(Ascii("format ") + fs) == Format(if fs == [101, 120, 116, 52] then EXT4 else FAT32)
    ensures ToInt(n) == if n < 2147483648 then n else n - 4294967296
  {
    FsMeaning(fs);
    NumberOfDigits(n);
    SelectDiskDispatch(Digits(n, 10));
    DelPartDispatch(Digits(n, 10));
    FormatDispatch(fs);
  }

  /** Every word command is reached by its own word: no earlier branch captures it. */
  lemma WordsAreReached()
    ensures CommandOf([]) == Blank
    ensures CommandOf(Ascii("help")) == Help
    ensures CommandOf(Ascii("listdisks")) == ListDisks
    ensures CommandOf(Ascii("update")) == Update
    ensures CommandOf(Ascii("format")) == Format(EXT4)
    ensures CommandOf(Ascii("partinfo")) == PartInfo
    ensures CommandOf(Ascii("exit")) == Exit
  {
    assert |Ascii("format")| == 6;
    hide Ascii;
    HeadsOf();
  }

  lemma WordBytes()
    ensures Ascii("help") == [104, 101, 108, 112]
    ensures Ascii("listdisks") == [108, 105, 115, 116, 100, 105, 115, 107, 115]
    ensures Ascii("update") == [117, 112, 100, 97, 116, 101]
    ensures Ascii("partinfo") == [112, 97, 114, 116, 105, 110, 102, 111]
    ensures Ascii("exit") == [101, 120, 105, 116]
  {
  }

  lemma FormatBytes()
    ensures Ascii("format") == [102, 111, 114, 109, 97, 116]
    ensures Ascii("format ") == [102, 111, 114, 109, 97, 116, 32]
  {
  }

  lemma PrefixBytes()
    ensures Ascii("selectdisk ") == [115, 101, 108, 101, 99, 116, 100, 105, 115, 107, 32]
    ensures Ascii("newpart ") == [110, 101, 119, 112, 97, 114, 116, 32]
    ensures Ascii("delpart ") == [100, 101, 108, 112, 97, 114, 116, 32]
  {
  }

  lemma PrefixHead(t: seq<byte>, p: seq<byte>)
    requires p != [] && HasPrefix(t, p)
    ensures t != [] && t[0] == p[0]
  {
    assert t[..|p|][0] == t[0];
  }

  /** Which lines are which command, letter by letter; a line that is none of them is unknown. */
  lemma CommandIff(t: seq<byte>)
    ensures CommandOf(t) == Blank <==> t == []
    ensures CommandOf(t) == Help <==> t == [104, 101, 108, 112]
    ensures CommandOf(t) == ListDisks <==> t == [108, 105, 115, 116, 100, 105, 115, 107, 115]
    ensures CommandOf(t) == Update <==> t == [117, 112, 100, 97, 116, 101]
    ensures CommandOf(t) == PartInfo <==> t == [112, 97, 114, 116, 105, 110, 102, 111]
    ensures CommandOf(t) == Exit <==> t == [101, 120, 105, 116]
    ensures CommandOf(t).Format? <==> t == [102, 111, 114, 109, 97, 116] || (|t| >= 7 && t[..7] == [102, 111, 114, 109, 97, 116, 32])
    ensures CommandOf(t).SelectDisk? <==> |t| >= 11 && t[..11] == [115, 101, 108, 101, 99, 116, 100, 105, 115, 107, 32]
    ensures CommandOf(t).NewPart? <==> |t| >= 8 && t[..8] == [110, 101, 119, 112, 97, 114, 116, 32]
    ensures CommandOf(t).DelPart? <==> |t| >= 8 && t[..8] == [100, 101, 108, 112, 97, 114, 116, 32]
    ensures CommandOf(t) == Unknown <==>
            && t != [] && t != [104, 101, 108, 112] && t != [108, 105, 115, 116, 100, 105, 115, 107, 115]
            && t != [117, 112, 100, 97, 116, 101] && t != [112, 97, 114, 116, 105, 110, 102, 111] && t != [101, 120, 105, 116]
            && t != [102, 111, 114, 109, 97, 116] && !(|t| >= 7 && t[..7] == [102, 111, 114, 109, 97, 116, 32])
            && !(|t| >= 11 && t[..11] == [115, 101, 108, 101, 99, 116, 100, 105, 115, 107, 32])
            && !(|t| >= 8 && t[..8] == [110, 101, 119, 112, 97, 114, 116, 32])
            && !(|t| >= 8 && t[..8] == [100, 101, 108, 112, 97, 114, 116, 32])
  {
    hide Ascii, Number, FsOf;
    WordBytes();
    FormatBytes();
    PrefixBytes();
    forall p | p in [Ascii("format "), Ascii("selectdisk "), Ascii("newpart "), Ascii("delpart ")] && HasPrefix(t, p)
      ensures t != [] && t[0] == p[0]
    {
      PrefixHead(t, p);
    }
  }

  // ----- from the keyboard -----

  predicate Plain(line: seq<byte>) {
    forall i :: 0 <= i < |line| ==> line[i] != 0 && line[i] != NEWLINE && line[i] != RETURN && line[i] != BACKSPACE
  }

  lemma PlainParts(line: seq<byte>)
    requires Plain(line) && line != []
    ensures Plain(line[..|line| - 1]) && Plain([line[|line| - 1]])
  {
  }

  lemma PressKey(before: seq<byte>, key: byte, n: nat)
    requires Plain([key]) && |before| + 1 < n
    ensures Press(Edit(before, before, false), key, n) == Edit(before + [key], before + [key], false)
  {
    assert [key][0] == key;
  }

  lemma {:induction false} PressPlain(line: seq<byte>, n: nat)
    requires Plain(line) && |line| < n
    ensures PressAll(line, n) == Edit(line, line, false)
  {
    hide *;
    if line == [] {
      PressNothing(n);
    } else {
      var before, key := line[..|line| - 1], line[|line| - 1];
      PlainParts(line);
      PressPlain(before, n);
      PressSnoc(before, key, n);
      PressKey(before, key, n);
      assert line == before + [key];
    }
  }

  /** A plain line that fits the buffer, typed and ended by Enter, is the string in the buffer. */
  lemma TypedLine(line: seq<byte>, n: nat)
    requires Plain(line) && |line| < n
    ensures var e := PressAll(line + [NEWLINE], n);
            e.text == line && Text(Padded(e.text, n)) == line
  {
    PressPlain(line, n);
    assert (line + [NEWLINE])[..|line|] == line;
    TextIs(Padded(line, n), |line|);
  }

  lemma NewPartPlain(d: seq<byte>, fs: seq<byte>)
    requires Plain(fs) && forall i :: 0 <= i < |d| ==> 48 <= d[i] <= 57
    ensures Plain(Ascii("newpart ") + d + [BLANK] + fs)
  {
    assert forall i :: 0 <= i < 8 ==> 32 <= Ascii("newpart ")[i] <= 122;
  }

  /** Typing "newpart <n> <fs>" and Enter at the prompt asks for exactly that partition. */
  lemma TypedNewPart(n: uint32, fs: seq<byte>)
    requires Plain(fs) && |fs| <= 236
    ensures var line := Ascii("newpart ") + Digits(n, 10) + [BLANK] + fs;
            && |line| < 256 && |PressAll(line + [NEWLINE], 256).text| <= 256
            && CommandOf(Text(Padded(PressAll(line + [NEWLINE], 256).text, 256)))
               == NewPart(n, if fs == [101, 120, 116, 52] then EXT4 else FAT32)
  {
    var line := Ascii("newpart ") + Digits(n, 10) + [BLANK] + fs;
    TenDigits(n);
    NumberOfDigits(n);
    NewPartRoundTrip(n, fs);
    NewPartPlain(Digits(n, 10), fs);
    TypedLine(line, 256);
  }

  // ----- the code -----

  lemma TextDrop(s: seq<byte>, k: nat)
    requires 0 in s && k <= |Text(s)|
    ensures 0 in s[k..] && Text(s[k..]) == Text(s)[k..]
  {
    hide *;
    TextEnds(s);
    var n := |Text(s)|;
    assert s[k..][n - k] == 0;
    assert s[k..][..n - k] == s[..n][k..];
    TextIs(s[k..], n - k);
  }

  lemma AsciiPlain(w: string)
    requires forall i :: 0 <= i < |w| ==> 0 < w[i] as int < 256
    ensures 0 !in Ascii(w)
  {
  }

  method Is(str: seq<byte>, word: seq<byte>) returns (yes: bool)
    requires 0 in str && 0 !in word
    ensures yes <==> Text(str) == word
  {
    TextBody(word);
    var r := StrCmp(str, word + [0]);
    return r == 0;
  }

  method Starts(str: seq<byte>, prefix: seq<byte>) returns (yes: bool)
    requires 0 in str && 0 !in prefix
    ensures yes <==> HasPrefix(Text(str), prefix)
  {
    TextBody(prefix);
    var r := StrNCmp(str, prefix + [0], |prefix|);
    return r == 0;
  }

  /** parse_fs_type. */
  method ParseFsType(str: seq<byte>) returns (fs: FileSystemType)
    requires 0 in str
    ensures fs == FsOf(Text(str))
    ensures fs == EXT4 <==> Text(str) == [101, 120, 116, 52]
  {
    AsciiPlain("ext4");
    FsMeaning(Text(str));
    var ext4 := Is(str, Ascii("ext4"));
    return if ext4 then EXT4 else FAT32;
  }

  lemma {:induction false} PrefixOfText(s: seq<byte>)
    requires 0 in s
    ensures PrefixLen(s, 10) == PrefixLen(Text(s), 10)
  {
    if s[0] != 0 && IsDigit(s[0], 10) {
      assert 0 in s[1..];
      PrefixOfText(s[1..]);
      assert Text(s)[1..] == Text(s[1..]);
    }
  }

  method ParseNumber(str: seq<byte>) returns (n: uint32)
    requires 0 in str
    ensures n == Number(Text(str))
  {
    var end;
    n, end := Strtoul(str, 10);
    PrefixOfText(str);
    TextEnds(str);
    assert str[..end] == Text(str)[..end];
  }

  lemma {:induction false} BlankIs(t: seq<byte>, k: nat)
    requires k <= |t| && BLANK !in t[..k] && (k < |t| ==> t[k] == BLANK)
    ensures BlankAt(t) == k
  {
    if k > 0 {
      assert t[0] == t[..k][0] && t[1..][..k - 1] == t[..k][1..];
      BlankIs(t[1..], k - 1);
    }
  }

  lemma CutFirst(was: seq<byte>, k: nat)
    requires 0 in was && 8 + k < |Text(was)| < |was|
    ensures var now := was[8 + k := 0];
            0 in now[8..] && Text(now[8..]) == Text(was)[8..][..k]
  {
    var now, part := was[8 + k := 0], Text(was)[8..][..k];
    assert now[8..][..k] == part;
    assert now[8..][k] == 0;
    assert 0 !in part by {
      assert forall x :: x in part ==> x in Text(was);
    }
    TextIs(now[8..], k);
  }

  /** What the two strings are once the blank between them is a NUL. */
  lemma Cut(was: seq<byte>, k: nat)
    requires 0 in was && 8 + k < |Text(was)| < |was|
    requires var t := Text(was)[8..]; t[k] == BLANK && BLANK !in t[..k]
    ensures var t, now := Text(was)[8..], was[8 + k := 0];
            && was[8 + k] == BLANK && BlankAt(t) == k
            && 0 in now[8..] && Text(now[8..]) == t[..k]
            && 0 in now[8 + k + 1..] && Text(now[8 + k + 1..]) == t[k + 1..]
  {
    var t, now := Text(was)[8..], was[8 + k := 0];
    BlankIs(t, k);
    TextDrop(was, 8 + k + 1);
    assert now[8 + k + 1..] == was[8 + k + 1..] && Text(was)[8 + k + 1..] == t[k + 1..];
    CutFirst(was, k);
  }

  lemma Uncut(t: seq<byte>)
    requires BLANK !in t
    ensures BlankAt(t) == |t| && t[..|t|] == t
  {
    assert t[..|t|] == t;
    BlankIs(t, |t|);
  }

  lemma NewPartIs(t: seq<byte>, k: nat)
    requires k <= |t| && BlankAt(t) == k
    ensures NewPartOf(t) == NewPart(Number(t[..k]), if k < |t| then FsOf(t[k + 1..]) else FAT32)
  {
  }

  /** The cut: the blank is overwritten with NUL, in place, and the two strings are parsed. */
  method ParseCut(command: array<byte>, k: nat) returns (cmd: Command)
    requires 0 in command[..] && 8 + k < |Text(command[..])| < command.Length
    requires var t := Text(command[..])[8..]; t[k] == BLANK && BLANK !in t[..k]
    modifies command
    ensures cmd == NewPartOf(Text(old(command[..]))[8..])
    ensures old(command[..])[8 + k] == BLANK && command[..] == old(command[..])[8 + k := 0]
  {
    hide *;
    ghost var was := command[..];
    Cut(was, k);
    command[8 + k] := 0;
    assert command[..] == was[8 + k := 0];
    assert command[8 + k + 1..] == command[..][8 + k + 1..] && command[8..] == command[..][8..];
    var fs := ParseFsType(command[8 + k + 1..]);
    var mb := ParseNumber(command[8..]);
    NewPartIs(Text(was)[8..], k);
    return NewPart(mb, fs);
  }

  /** The newpart branch. */
  method ParseNewPart(command: array<byte>) returns (cmd: Command)
    requires 0 in command[..] && 8 <= |Text(command[..])|
    modifies command
    ensures cmd == NewPartOf(Text(old(command[..]))[8..])
    ensures forall i :: 0 <= i < command.Length ==>
      command[i] == old(command[i]) || (old(command[i]) == BLANK && command[i] == 0)
  {
    hide *;
    ghost var was := command[..];
    TextDrop(was, 8);
    TextEnds(was);
    assert command[8..] == was[8..];
    var k := StrChr(command[8..], BLANK);
    if k >= 0 {
      cmd := ParseCut(command, k);
    } else {
      ghost var t := Text(was)[8..];
      Uncut(t);
      NewPartIs(t, |t|);
      var mb := ParseNumber(command[8..]);
      return NewPart(mb, FAT32);
    }
  }

  lemma Words()
    ensures 0 !in Ascii("help") && 0 !in Ascii("listdisks") && 0 !in Ascii("update") && 0 !in Ascii("format")
    ensures 0 !in Ascii("format ") && 0 !in Ascii("selectdisk ") && 0 !in Ascii("newpart ") && 0 !in Ascii("delpart ")
    ensures 0 !in Ascii("partinfo") && 0 !in Ascii("exit")
  {
    AsciiPlain("help");
    AsciiPlain("listdisks");
    AsciiPlain("update");
    AsciiPlain("format");
    AsciiPlain("format ");
    AsciiPlain("selectdisk ");
    AsciiPlain("newpart ");
    AsciiPlain("delpart ");
    AsciiPlain("partinfo");
    AsciiPlain("exit");
  }

  /** The dispatch of start_disktool on one line in the 256-byte command buffer. */
  method Dispatch(command: array<byte>) returns (cmd: Command)
    requires 0 in command[..]
    modifies command
    ensures cmd == CommandOf(Text(old(command[..])))
    ensures forall i :: 0 <= i < command.Length ==>
      command[i] == old(command[i]) || (old(command[i]) == BLANK && command[i] == 0)
  {
    ghost var was := command[..];
    if command[0] == 0 { return Blank; }
    Words();
    var yes := Is(command[..], Ascii("help"));
    if yes { return Help; }
    yes := Is(command[..], Ascii("listdisks"));
    if yes { return ListDisks; }
    yes := Is(command[..], Ascii("update"));
    if yes { return Update; }
    yes := Is(command[..], Ascii("format"));
    if yes { return Format(EXT4); }
    yes := Starts(command[..], Ascii("format "));
    if yes {
      TextDrop(was, 7);
      var fs := ParseFsType(command[7..]);
      return Format(fs);
    }
    yes := Starts(command[..], Ascii("selectdisk "));
    if yes {
      TextDrop(was, 11);
      var n := ParseNumber(command[11..]);
      return SelectDisk(ToInt(n));
    }
    yes := Starts(command[..], Ascii("newpart "));
    if yes {
      cmd := ParseNewPart(command);
      return;
    }
    yes := Starts(command[..], Ascii("delpart "));
    if yes {
      TextDrop(was, 8);
      var n := ParseNumber(command[8..]);
      return DelPart(ToInt(n));
    }
    yes := Is(command[..], Ascii("partinfo"));
    if yes { return PartInfo; }
    yes := Is(command[..], Ascii("exit"));
    if yes { return Exit; }
    return Unknown;
  }
}
