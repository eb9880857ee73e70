/** Permission decoding of the `File` class: `getOwnerPerms`, `getGroupPerms`,
    `getUserPerms` and `getPerms`.  The mode that `fileperms($this->file)`
    returns is the parameter `mode`.  The symbolic triplets follow the file-mode
    string of `ls -l` (POSIX.1-2017, utility `ls`, section STDOUT): `r`, `w` and
    an execute slot that also shows setuid/setgid (`s`/`S`) or sticky (`t`/`T`). */
module Perms {
  import opened Bits
  import opened Octal
  import opened Wrappers
  import opened Strings

  /** The three permission classes.  `File.php` calls the class of everybody
      else "user" (`getUserPerms`). */
  datatype PermClass = Owner | Group | User {

    /** Bit index of the read permission: masks 0x0100, 0x0020, 0x0004. */
    function ReadBit(): nat {
      match this
      case Owner => 8
      case Group => 5
      case User => 2
    }

    /** Bit index of the write permission: masks 0x0080, 0x0010, 0x0002. */
    function WriteBit(): nat {
      match this
      case Owner => 7
      case Group => 4
      case User => 1
    }

    /** Bit index of the execute permission: masks 0x0040, 0x0008, 0x0001. */
    function ExecBit(): nat {
      match this
      case Owner => 6
      case Group => 3
      case User => 0
    }

    /** Bit index of the class's special bit: setuid 0x0800, setgid 0x0400,
        sticky 0x0200. */
    function SpecialBit(): nat {
      match this
      case Owner => 11
      case Group => 10
      case User => 9
    }

    /** Execute slot when both execute and the special bit are set. */
    function SpecialExec(): char {
      if User? then 't' else 's'
    }

    /** Execute slot when the special bit is set without execute. */
    function SpecialNoExec(): char {
      if User? then 'T' else 'S'
    }

    /** The four bit indices the class's triplet reads. */
    predicate Uses(i: nat) {
      i == ReadBit() || i == WriteBit() || i == ExecBit() || i == SpecialBit()
    }
  }

  /** What a triplet tells about one class. */
  datatype ClassBits = ClassBits(read: bool, write: bool, exec: bool, special: bool)

  function BitsOf(mode: nat, c: PermClass): ClassBits {
    ClassBits(Bit(mode, c.ReadBit()), Bit(mode, c.WriteBit()), Bit(mode, c.ExecBit()), Bit(mode, c.SpecialBit()))
  }

  /** The three characters `File.php` appends for one class. */
  function Render(b: ClassBits, c: PermClass): string {
    [ if b.read then 'r' else '-',
      if b.write then 'w' else '-',
      if b.exec then (if b.special then c.SpecialExec() else 'x')
      else (if b.special then c.SpecialNoExec() else '-') ]
  }

  /** Reads a triplet back; `None` for a string no class bits render to. */
  function Parse(t: string, c: PermClass): Option<ClassBits> {
    if |t| != 3 || (t[0] != 'r' && t[0] != '-') || (t[1] != 'w' && t[1] != '-') then None
    else if t[2] == 'x' then Some(ClassBits(t[0] == 'r', t[1] == 'w', true, false))
    else if t[2] == '-' then Some(ClassBits(t[0] == 'r', t[1] == 'w', false, false))
    else if t[2] == c.SpecialExec() then Some(ClassBits(t[0] == 'r', t[1] == 'w', true, true))
    else if t[2] == c.SpecialNoExec() then Some(ClassBits(t[0] == 'r', t[1] == 'w', false, true))
    else None
  }

  /** Rendering loses nothing: parsing a rendered triplet gives the bits back. */
  lemma RenderThenParse(b: ClassBits, c: PermClass)
    ensures Parse(Render(b, c), c) == Some(b)
  {
  }

  /** Every triplet that parses is the rendering of what it parses to. */
  lemma ParseThenRender(t: string, c: PermClass, b: ClassBits)
    requires Parse(t, c) == Some(b)
    ensures Render(b, c) == t
  {
  }

  /** The triplet of class `c`: three characters; slot 0 is `r` exactly when the
      read bit is set, slot 1 is `w` exactly when the write bit is set, and slot 2
      shows execute and the special bit through `x`, the lower-case special
      letter, the upper-case one or `-`. */
  function Triplet(mode: nat, c: PermClass): (t: string)
    ensures |t| == 3
    ensures (t[0] == 'r' || t[0] == '-') && (t[0] == 'r' <==> Bit(mode, c.ReadBit()))
    ensures (t[1] == 'w' || t[1] == '-') && (t[1] == 'w' <==> Bit(mode, c.WriteBit()))
    ensures t[2] == 'x' || t[2] == '-' || t[2] == c.SpecialExec() || t[2] == c.SpecialNoExec()
    ensures (t[2] == 'x' || t[2] == c.SpecialExec()) <==> Bit(mode, c.ExecBit())
    ensures (t[2] == c.SpecialExec() || t[2] == c.SpecialNoExec()) <==> Bit(mode, c.SpecialBit())
    ensures Parse(t, c) == Some(BitsOf(mode, c))
  {
    Render(BitsOf(mode, c), c)
  }

  /** The mask each slot of a class tests is `2^bit`. */
  lemma MaskValues()
    ensures Pow(2, 0) == 0x0001 && Pow(2, 1) == 0x0002 && Pow(2, 2) == 0x0004
    ensures Pow(2, 3) == 0x0008 && Pow(2, 4) == 0x0010 && Pow(2, 5) == 0x0020
    ensures Pow(2, 6) == 0x0040 && Pow(2, 7) == 0x0080 && Pow(2, 8) == 0x0100
    ensures Pow(2, 9) == 0x0200 && Pow(2, 10) == 0x0400 && Pow(2, 11) == 0x0800
  {
  }

  /** The class bits as the mask tests of `File.php` read them. */
  lemma BitsAreMaskTests(mode: nat, c: PermClass)
    ensures BitsOf(mode, c) == (match c
      case Owner => ClassBits(MaskSet(mode, 0x0100), MaskSet(mode, 0x0080), MaskSet(mode, 0x0040), MaskSet(mode, 0x0800))
      case Group => ClassBits(MaskSet(mode, 0x0020), MaskSet(mode, 0x0010), MaskSet(mode, 0x0008), MaskSet(mode, 0x0400))
      case User => ClassBits(MaskSet(mode, 0x0004), MaskSet(mode, 0x0002), MaskSet(mode, 0x0001), MaskSet(mode, 0x0200)))
  {
    MaskValues();
    BitIsMaskTest(mode, c.ReadBit());
    BitIsMaskTest(mode, c.WriteBit());
    BitIsMaskTest(mode, c.ExecBit());
    BitIsMaskTest(mode, c.SpecialBit());
  }

  /** `getOwnerPerms`: decoding the result gives the tests of masks 0x0100,
      0x0080, 0x0040 and setuid 0x0800. */
  function OwnerPerms(mode: nat): (t: string)
    ensures |t| == 3
    ensures Parse(t, Owner) == Some(ClassBits(MaskSet(mode, 0x0100), MaskSet(mode, 0x0080), MaskSet(mode, 0x0040), MaskSet(mode, 0x0800)))
  {
    BitsAreMaskTests(mode, Owner);
    Triplet(mode, Owner)
  }

  /** `getGroupPerms`: decoding the result gives the tests of masks 0x0020,
      0x0010, 0x0008 and setgid 0x0400. */
  function GroupPerms(mode: nat): (t: string)
    ensures |t| == 3
    ensures Parse(t, Group) == Some(ClassBits(MaskSet(mode, 0x0020), MaskSet(mode, 0x0010), MaskSet(mode, 0x0008), MaskSet(mode, 0x0400)))
  {
    BitsAreMaskTests(mode, Group);
    Triplet(mode, Group)
  }

  /** `getUserPerms`: decoding the result gives the tests of masks 0x0004,
      0x0002, 0x0001 and sticky 0x0200. */
  function UserPerms(mode: nat): (t: string)
    ensures |t| == 3
    ensures Parse(t, User) == Some(ClassBits(MaskSet(mode, 0x0004), MaskSet(mode, 0x0002), MaskSet(mode, 0x0001), MaskSet(mode, 0x0200)))
  {
    BitsAreMaskTests(mode, User);
    Triplet(mode, User)
  }

  /** A triplet does not change when a bit it does not read is toggled. */
  lemma TripletIgnoresOtherBits(mode: nat, c: PermClass, i: nat)
    requires !c.Uses(i)
    ensures Triplet(Flip(mode, i), c) == Triplet(mode, c)
  {
    FlipBits(mode, i, c.ReadBit());
    FlipBits(mode, i, c.WriteBit());
    FlipBits(mode, i, c.ExecBit());
    FlipBits(mode, i, c.SpecialBit());
  }

  /** Toggling a bit a triplet reads changes the triplet. */
  lemma TripletSeesItsBits(mode: nat, c: PermClass, i: nat)
    requires c.Uses(i)
    ensures Triplet(Flip(mode, i), c) != Triplet(mode, c)
  {
    FlipBits(mode, i, i);
    var t1, t2 := Triplet(Flip(mode, i), c), Triplet(mode, c);
    assert Parse(t1, c) != Parse(t2, c);
  }

  /** `getPerms(false)`: the three triplets joined by `|`. */
  function SymbolicPerms(mode: nat): (s: string)
    ensures |s| == 11 && s[3] == '|' && s[7] == '|'
    ensures s[..3] == OwnerPerms(mode) && s[4..7] == GroupPerms(mode) && s[8..] == UserPerms(mode)
    ensures Parse(s[..3], Owner) == Some(BitsOf(mode, Owner))
    ensures Parse(s[4..7], Group) == Some(BitsOf(mode, Group))
    ensures Parse(s[8..], User) == Some(BitsOf(mode, User))
  {
    var s := OwnerPerms(mode) + "|" + GroupPerms(mode) + "|" + UserPerms(mode);
    assert s[..3] == Triplet(mode, Owner);
    assert s[4..7] == Triplet(mode, Group);
    assert s[8..] == Triplet(mode, User);
    s
  }

  /** `getPerms(true)`: the last four digits of the octal rendering of the mode.
      They are worth the mode's low twelve bits (permissions plus setuid, setgid
      and sticky); there are fewer than four only for modes below 0o1000. */
  function OctalPerms(mode: nat): (s: string)
    ensures |s| <= 4 && AllOctalDigits(s)
    ensures IsSuffix(s, ToOctal(mode))
    ensures |s| == if |ToOctal(mode)| < 4 then |ToOctal(mode)| else 4
    ensures |s| == 4 <==> mode >= 512
    ensures OctalValue(s) == mode % 4096
  {
    TailValue(mode, 4);
    OctalLength(mode, 3);
    Tail(ToOctal(mode), 4)
  }

  /** `getPerms($hex)`: octal digits when `$hex` is `true`, the symbolic form
      otherwise. */
  function GetPerms(mode: nat, hex: bool := true): (s: string)
    ensures hex ==> AllOctalDigits(s) && OctalValue(s) == mode % 4096
    ensures hex ==> IsSuffix(s, ToOctal(mode)) && |s| == (if |ToOctal(mode)| < 4 then |ToOctal(mode)| else 4)
    ensures !hex ==> |s| == 11 && s[3] == '|' && s[7] == '|'
    ensures !hex ==> s[..3] == OwnerPerms(mode) && s[4..7] == GroupPerms(mode) && s[8..] == UserPerms(mode)
  {
    if hex then OctalPerms(mode) else SymbolicPerms(mode)
  }

  /** The symbolic form shows exactly the low twelve bits of the mode: two modes
      have the same symbolic form iff they agree modulo 0o10000. */
  lemma SymbolicShowsLowBits(m1: nat, m2: nat)
    ensures SymbolicPerms(m1) == SymbolicPerms(m2) <==> m1 % 4096 == m2 % 4096
  {
    var s1, s2 := SymbolicPerms(m1), SymbolicPerms(m2);
    assert Pow(2, 12) == 4096 by { MaskValues(); }
    LowBitsAgree(m1, m2, 12);
    if s1 == s2 {
      assert s1[..3] == s2[..3] && s1[4..7] == s2[4..7] && s1[8..] == s2[8..];
      assert BitsOf(m1, Owner) == BitsOf(m2, Owner);
      assert BitsOf(m1, Group) == BitsOf(m2, Group);
      assert BitsOf(m1, User) == BitsOf(m2, User);
      forall i: nat | i < 12 ensures Bit(m1, i) <==> Bit(m2, i) {
      }
    }
    if m1 % 4096 == m2 % 4096 {
      assert BitsOf(m1, Owner) == BitsOf(m2, Owner);
      assert BitsOf(m1, Group) == BitsOf(m2, Group);
      assert BitsOf(m1, User) == BitsOf(m2, User);
    }
  }

  /** For modes of four or more octal digits (every mode `fileperms` reports
      carries its file-type bits, so 0o100000 and up for a regular file) the two
      forms of `getPerms` carry the same information. */
  lemma PermFormsAgree(m1: nat, m2: nat)
    requires m1 >= 512 && m2 >= 512
    ensures GetPerms(m1, true) == GetPerms(m2, true) <==> GetPerms(m1, false) == GetPerms(m2, false)
  {
    SymbolicShowsLowBits(m1, m2);
    var o1, o2 := GetPerms(m1, true), GetPerms(m2, true);
    if m1 % 4096 == m2 % 4096 {
      OctalValueInjective(o1, o2);
    }
  }

  /** Mode 0o777 shows full access for every class. */
  lemma FullAccessExample()
    ensures GetPerms(0x1FF, false) == "rwx|rwx|rwx"
  {
  }

  /** A regular file with mode 0o644 (0o100644 with its type bits) shows `0644`. */
  lemma RegularFileOctalExample()
    ensures GetPerms(0x81A4, true) == "0644"
  {
    assert ToOctal(1) == "1";
    assert ToOctal(8) == "10";
    assert ToOctal(64) == "100";
    assert ToOctal(518) == "1006";
    assert ToOctal(4148) == "10064";
    assert ToOctal(0x81A4) == "100644";
    assert Tail("100644", 4) == "0644";
  }

  /** The same file in symbolic form. */
  lemma RegularFileSymbolicExample()
    ensures GetPerms(0x81A4, false) == "rw-|r--|r--"
  {
  }

  /** Setuid shows `s` over owner execute and `S` without it. */
  lemma SetuidExample()
    ensures OwnerPerms(0x09C0) == "rws"
    ensures OwnerPerms(0x0980) == "rwS"
  {
  }
}
