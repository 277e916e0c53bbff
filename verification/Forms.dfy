/** The texts that guards ask for, described from the outside: by their pieces, their size, and what trimming does. */
module Forms {
  import opened Texts
  import opened Rules

  // ---- bytes ----

  /** How many characters one to four bytes of UTF-8 can tell apart: with 7, 11, 16 and 21 bits. */
  function Capacity(bytes: int): int {
    match bytes
    case 1 => 0x80
    case 2 => 0x800
    case 3 => 0x1_0000
    case 4 => 0x20_0000
    case _ => 0
  }

  /** A character takes as few bytes as can hold it. */
  lemma CharLengthIsLeast(c: char)
    ensures 1 <= CharLength(c) <= 4
    ensures Capacity(CharLength(c) - 1) <= c as int < Capacity(CharLength(c))
  {
  }

  lemma {:induction false} ByteLengthConcat(a: string, b: string)
    ensures ByteLength(a + b) == ByteLength(a) + ByteLength(b)
  {
    if a == "" {
      assert a + b == b;
    } else {
      ByteLengthConcat(a[1..], b);
      assert (a + b)[1..] == a[1..] + b;
    }
  }

  // ---- blanks ----

  /** The characters with the Unicode property White_Space. */
  const WHITE_SPACE: seq<int> := [
    0x9, 0xA, 0xB, 0xC, 0xD, 0x20, 0x85, 0xA0, 0x1680, 0x2000, 0x2001, 0x2002, 0x2003, 0x2004, 0x2005, 0x2006, 0x2007,
    0x2008, 0x2009, 0x200A, 0x2028, 0x2029, 0x202F, 0x205F, 0x3000]

  lemma SpaceIsWhiteSpace(c: char)
    ensures IsSpace(c) <==> c as int in WHITE_SPACE
  {
  }

  /** The control characters are the first 32 characters of ASCII, its last, and the 32 after it. */
  lemma ControlIs(c: char)
    ensures IsControl(c) <==> (c as int < 0x100 && c as int % 0x80 < 0x20) || c as int == 0x7F
  {
  }

  /** `strings.TrimSpace`. */
  function TrimSpace(s: string): (t: string)
    decreases |s|
  {
    if s != "" && IsSpace(s[0]) then TrimSpace(s[1..])
    else if s != "" && IsSpace(s[|s| - 1]) then TrimSpace(s[..|s| - 1])
    else s
  }

  lemma {:induction false} TrimSpaceShortens(s: string)
    ensures |TrimSpace(s)| <= |s|
    ensures TrimSpace(s) == "" <==> Blank(s)
    decreases |s|
  {
    if s != "" && IsSpace(s[0]) {
      TrimSpaceShortens(s[1..]);
      assert Blank(s[1..]) ==> forall i | 1 <= i < |s| :: s[i] == s[1..][i - 1];
    } else if s != "" && IsSpace(s[|s| - 1]) {
      TrimSpaceShortens(s[..|s| - 1]);
    }
  }

  /** Trimming decides both guards: a text is blank if nothing is left, and trimmed if it is left alone. */
  lemma TrimSpaceDecides(s: string)
    ensures Blank(s) <==> TrimSpace(s) == ""
    ensures Trimmed(s) <==> TrimSpace(s) == s
  {
    TrimSpaceShortens(s);
    if s != "" {
      TrimSpaceShortens(s[1..]);
      TrimSpaceShortens(s[..|s| - 1]);
    }
  }

  // ---- guards ----

  lemma DiscoveryTextForm(s: string, maximum: nat)
    ensures DiscoveryText(s, maximum)
       <==> && 0 < ByteLength(s) <= maximum && TrimSpace(s) == s
            && forall c | c in s :: !(c as int < 32 || 127 <= c as int < 160)
  {
    TrimSpaceDecides(s);
    if forall c | c in s :: !(c as int < 32 || 127 <= c as int < 160) {
      forall i | 0 <= i < |s| ensures !IsControl(s[i]) {
        assert s[i] in s;
      }
    }
  }

  lemma ResourceIDForm(id: string)
    ensures IsResourceID(id)
       <==> TrimSpace(id) == id != "" && forall c | c in id :: c as int != 0 && c as int != 10 && c as int != 13
  {
    TrimSpaceDecides(id);
    if forall c | c in id :: c as int != 0 && c as int != 10 && c as int != 13 {
      forall i | 0 <= i < |id| ensures id[i] !in {'\0', '\r', '\n'} {
        assert id[i] in id;
      }
    }
  }

  // ---- patterns ----

  const LOWER_ALNUM := "abcdefghijklmnopqrstuvwxyz0123456789"

  lemma LowerAlnumIs(c: char)
    ensures IsLowerAlnum(c) <==> c in LOWER_ALNUM
  {
  }

  lemma HexIs(c: char)
    ensures ('0' <= c <= '9' || 'a' <= c <= 'f') <==> c in "0123456789abcdef"
  {
  }

  predicate AllIn(s: string, alphabet: string) {
    forall i | 0 <= i < |s| :: s[i] in alphabet
  }

  /** An identity is one letter or digit and at most 127 more characters. */
  lemma IdentityForm(c: char, tail: string)
    ensures IsIdentity([c] + tail)
       <==> c in LOWER_ALNUM && |tail| <= 127 && AllIn(tail, LOWER_ALNUM + "._/@:-")
  {
    var s := [c] + tail;
    LowerAlnumIs(c);
    forall i | 0 <= i < |tail|
      ensures s[i + 1] == tail[i]
      ensures IsLowerAlnum(tail[i]) || tail[i] in {'.', '_', '/', '@', ':', '-'}
         <==> tail[i] in LOWER_ALNUM + "._/@:-"
    {
      LowerAlnumIs(tail[i]);
    }
  }

  lemma NoEmptyIdentity()
    ensures !IsIdentity("")
  {
  }

  predicate IsHex64(s: string) {
    |s| == 64 && AllIn(s, "0123456789abcdef")
  }

  /** A digest is the name of the hash and 64 hexadecimal digits. */
  lemma DigestForm(s: string)
    ensures IsDigest(s) <==> exists h :: s == "sha256:" + h && IsHex64(h)
  {
    forall h | s == "sha256:" + h && IsHex64(h) ensures IsDigest(s) {
      assert s[..7] == "sha256:";
      forall i | 7 <= i < 71 ensures '0' <= s[i] <= '9' || 'a' <= s[i] <= 'f' {
        assert s[i] == h[i - 7];
        HexIs(s[i]);
      }
    }
    if IsDigest(s) {
      var h := s[7..];
      assert s == s[..7] + h;
      forall i | 0 <= i < |h| ensures h[i] in "0123456789abcdef" {
        HexIs(s[i + 7]);
      }
      assert IsHex64(h);
    }
  }

  lemma SelectorForm(c: CapabilitySelector)
    ensures c.Valid()
       <==> && (exists h :: c.digest == "sha256:" + h && IsHex64(h))
            && c.ref != "" && c.ref[0] in LOWER_ALNUM && |c.ref| <= 128 && AllIn(c.ref, LOWER_ALNUM + "._/@:-")
  {
    DigestForm(c.digest);
    if c.ref != "" {
      IdentityForm(c.ref[0], c.ref[1..]);
      assert [c.ref[0]] + c.ref[1..] == c.ref;
      assert c.ref[0] in LOWER_ALNUM ==> c.ref[0] in LOWER_ALNUM + "._/@:-";
      assert AllIn(c.ref, LOWER_ALNUM + "._/@:-")
        <==> c.ref[0] in LOWER_ALNUM + "._/@:-" && AllIn(c.ref[1..], LOWER_ALNUM + "._/@:-");
    }
  }
}
