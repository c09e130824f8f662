/** OpenType table tags as sfntly's `Tag` class holds them: the four tag
    bytes packed big-endian into a Java `int`, and the set of tables a
    subset leaves out. */
module TableTags {
  import opened Wrappers

  const TwoTo31: int := 0x8000_0000
  const TwoTo32: int := 0x1_0000_0000

  /** A value of Java's 32-bit `int`. */
  predicate IsInt32(v: int) {
    -TwoTo31 <= v < TwoTo31
  }

  /** The four bytes read as an unsigned big-endian number. */
  function Unsigned(tag: seq<byte>): (u: nat)
    requires |tag| == 4
    ensures u < TwoTo32
  {
    tag[0] as int * 0x100_0000 + tag[1] as int * 0x1_0000 + tag[2] as int * 0x100 + tag[3] as int
  }

  /** The bytes packed big-endian into a Java `int`; a first byte of 0x80
      or more gives a negative value. This is sfntly's `Tag.intValue` for
      tags whose bytes are all below 0x80, such as the ASCII names packed
      here; sfntly sign-extends each byte before combining them, so for a
      later byte of 0x80 or more its result differs. */
  function IntValue(tag: seq<byte>): (v: int)
    requires |tag| == 4
    ensures IsInt32(v)
    ensures v < 0 <==> tag[0] >= 0x80
  {
    var u := Unsigned(tag);
    if u >= TwoTo31 then u - TwoTo32 else u
  }

  /** Helper, not an operation of the source: the four tag bytes of a Java
      `int`, most significant first. It and the two lemmas after it show
      that packing a tag into an `int` loses nothing. */
  function TagBytes(v: int): (tag: seq<byte>)
    requires IsInt32(v)
    ensures |tag| == 4
  {
    var u := if v < 0 then v + TwoTo32 else v;
    [u / 0x100_0000, u / 0x1_0000 % 0x100, u / 0x100 % 0x100, u % 0x100]
  }

  lemma TagBytesOfIntValue(tag: seq<byte>)
    requires |tag| == 4
    ensures TagBytes(IntValue(tag)) == tag
  {
    var u := Unsigned(tag);
    var b0: int, b1: int, b2: int, b3: int := tag[0], tag[1], tag[2], tag[3];
    var v := IntValue(tag);
    assert (if v < 0 then v + TwoTo32 else v) == u;
    assert u / 0x100 == b0 * 0x1_0000 + b1 * 0x100 + b2 && u % 0x100 == b3;
    assert u / 0x1_0000 == b0 * 0x100 + b1;
    assert u / 0x100_0000 == b0;
    assert TagBytes(v) == [b0, b1, b2, b3];
  }

  lemma IntValueOfTagBytes(v: int)
    requires IsInt32(v)
    ensures IntValue(TagBytes(v)) == v
  {
    var u := if v < 0 then v + TwoTo32 else v;
    // u split one byte at a time, least significant first
    var a := u / 0x100;
    var b := a / 0x100;
    assert u == a * 0x100 + u % 0x100;
    assert a == b * 0x100 + a % 0x100;
    assert u / 0x1_0000 == b;
    assert u / 0x1_0000 % 0x100 == b % 0x100;
    assert u / 0x100_0000 == b / 0x100;
    assert TagBytes(v) == [b / 0x100, b % 0x100, a % 0x100, u % 0x100];
  }

  /** Helper: distinct tags get distinct values, so a set of tag values
      holds one value per tag. */
  lemma IntValueInjective(a: seq<byte>, b: seq<byte>)
    requires |a| == 4 && |b| == 4 && IntValue(a) == IntValue(b)
    ensures a == b
  {
    TagBytesOfIntValue(a);
    TagBytesOfIntValue(b);
  }

  /** The C# cast `(byte)c` keeps the low eight bits of the UTF-16 unit;
      every tag spelled here is ASCII, where the cast changes nothing. */
  function Truncate(c: char): (b: byte)
    ensures c as int < 0x100 ==> b == c as int
  {
    c as int % 0x100
  }

  /** The tag of a four-letter table name. */
  function TagOf(name: string): int
    requires |name| == 4
  {
    IntValue([Truncate(name[0]), Truncate(name[1]), Truncate(name[2]), Truncate(name[3])])
  }

  /** The tables a subset is built without, as packed tag values:
      `Tag.GDEF` .. `Tag.vhea`, and the AAT tables `mort` and `morx`, which
      sfntly's `Tag` does not name. `RemovedTablesAreTags` spells them. */
  const RemovedTables: set<int> :=
    {0x47444546, 0x47504f53, 0x47535542, 0x6b65726e, 0x68646d78, 0x766d7478,
     0x56444d58, 0x4c545348, 0x44534947, 0x76686561, 0x6d6f7274, 0x6d6f7278}

  /** The set handed to `setRemoveTables`, filled one tag at a time. */
  method RemoveTables() returns (tables: set<int>)
    ensures tables == RemovedTables
  {
    RemovedTablesAreTags();
    tables := {};
    tables := tables + {TagOf("GDEF")};
    tables := tables + {TagOf("GPOS")};
    tables := tables + {TagOf("GSUB")};
    tables := tables + {TagOf("kern")};
    tables := tables + {TagOf("hdmx")};
    tables := tables + {TagOf("vmtx")};
    tables := tables + {TagOf("VDMX")};
    tables := tables + {TagOf("LTSH")};
    tables := tables + {TagOf("DSIG")};
    tables := tables + {TagOf("vhea")};
    tables := tables + {TagOf("mort")};
    tables := tables + {TagOf("morx")};
  }

  /** The tag of an ASCII name, byte by byte. */
  lemma TagOfAscii(name: string)
    requires |name| == 4
    requires name[0] as int < 0x80 && name[1] as int < 0x80 && name[2] as int < 0x80 && name[3] as int < 0x80
    ensures TagOf(name) == name[0] as int * 0x100_0000 + name[1] as int * 0x1_0000 + name[2] as int * 0x100 + name[3] as int
  {
  }

  lemma RemovedTagValues()
    ensures TagOf("GDEF") == 0x47444546 && TagOf("GPOS") == 0x47504f53 && TagOf("GSUB") == 0x47535542
    ensures TagOf("kern") == 0x6b65726e && TagOf("hdmx") == 0x68646d78 && TagOf("vmtx") == 0x766d7478
    ensures TagOf("VDMX") == 0x56444d58 && TagOf("LTSH") == 0x4c545348 && TagOf("DSIG") == 0x44534947
    ensures TagOf("vhea") == 0x76686561 && TagOf("mort") == 0x6d6f7274 && TagOf("morx") == 0x6d6f7278
  {
    TagOfAscii("GDEF"); TagOfAscii("GPOS"); TagOfAscii("GSUB"); TagOfAscii("kern");
    TagOfAscii("hdmx"); TagOfAscii("vmtx"); TagOfAscii("VDMX"); TagOfAscii("LTSH");
    TagOfAscii("DSIG"); TagOfAscii("vhea"); TagOfAscii("mort"); TagOfAscii("morx");
  }

  lemma KeptTagValues()
    ensures TagOf("cmap") == 0x636d6170 && TagOf("glyf") == 0x676c7966 && TagOf("loca") == 0x6c6f6361
    ensures TagOf("name") == 0x6e616d65 && TagOf("head") == 0x68656164
  {
    TagOfAscii("cmap"); TagOfAscii("glyf"); TagOfAscii("loca"); TagOfAscii("name"); TagOfAscii("head");
  }

  /** The removed values are the tags of the twelve table names. */
  lemma RemovedTablesAreTags()
    ensures RemovedTables ==
      {TagOf("GDEF"), TagOf("GPOS"), TagOf("GSUB"), TagOf("kern"), TagOf("hdmx"), TagOf("vmtx"),
       TagOf("VDMX"), TagOf("LTSH"), TagOf("DSIG"), TagOf("vhea"), TagOf("mort"), TagOf("morx")}
  {
    RemovedTagValues();
  }

  /** Twelve distinct tables are removed, and the tables every subset
      needs (`cmap`, `glyf`, `loca`, `name`, `head`) are not among them. */
  lemma RemovedTablesExact()
    ensures |RemovedTables| == 12
    ensures TagOf("cmap") !in RemovedTables && TagOf("glyf") !in RemovedTables && TagOf("loca") !in RemovedTables
    ensures TagOf("name") !in RemovedTables && TagOf("head") !in RemovedTables
  {
    KeptTagValues();
    RemovedTablesCount();
    KeptValuesNotRemoved();
  }

  /** Helper: the twelve packed values are distinct. */
  lemma RemovedTablesCount()
    ensures |RemovedTables| == 12
  {
  }

  /** Helper: the kept tables' packed values are not removed. */
  lemma KeptValuesNotRemoved()
    ensures 0x636d6170 !in RemovedTables && 0x676c7966 !in RemovedTables && 0x6c6f6361 !in RemovedTables
    ensures 0x6e616d65 !in RemovedTables && 0x68656164 !in RemovedTables
  {
  }
}
