/**
 The path rules said again, each by itself: which parts a path may have, which names Windows reserves,
 that paths are in the order of their UTF-8 encodings, and which entries a scan passes over.
 */
module PackPathRules {
  import opened Bytes
  import opened PackPaths
  import opened PackScan
  import ScValText

  // ---------------------------------------------------------- device names

  /** A text that is the given name in capitals, or in any other mixture of cases. */
  predicate InAnyCase(s: string, name: string) {
    |s| == |name|
    && forall i | 0 <= i < |s| ::
         s[i] == name[i] || ('A' <= name[i] <= 'Z' && s[i] as int == name[i] as int + 32)
  }

  predicate IsDevice(s: string) {
    || InAnyCase(s, "CON") || InAnyCase(s, "PRN") || InAnyCase(s, "AUX") || InAnyCase(s, "NUL")
    || (|s| == 4 && (InAnyCase(s[..3], "COM") || InAnyCase(s[..3], "LPT")) && '1' <= s[3] <= '9')
  }

  /** A device name, spaces, and nothing more or an extension. */
  ghost predicate Reserved(part: string) {
    exists name, spaces, rest ::
      && part == name + spaces + rest && IsDevice(name)
      && (forall c | c in spaces :: c == ' ') && (rest == "" || rest[0] == '.')
  }

  predicate NoSmallLetters(name: string) {
    forall c | c in name :: !('a' <= c <= 'z')
  }

  lemma CaseExactly(s: string, name: string)
    requires NoSmallLetters(name)
    ensures InAnyCase(s, name) <==> Upper(s) == name
  {
    if Upper(s) == name {
      forall i | 0 <= i < |s|
        ensures s[i] == name[i] || ('A' <= name[i] <= 'Z' && s[i] as int == name[i] as int + 32)
      {
        assert Upper(s)[i] == name[i];
      }
    }
    if InAnyCase(s, name) {
      forall i | 0 <= i < |s|
        ensures Upper(s)[i] == name[i]
      {
        assert name[i] in name;
      }
    }
  }

  lemma NumberedDevice(u: string, name: string)
    requires |name| == 3
    ensures u in Numbered(name) <==> |u| == 4 && u[..3] == name && '1' <= u[3] <= '9'
  {
    if |u| == 4 && u[..3] == name && '1' <= u[3] <= '9' {
      assert u == name + [u[3]] && u[3] in "123456789";
    }
  }

  lemma DeviceExactly(s: string)
    ensures Upper(s) in RESERVED_NAMES <==> IsDevice(s)
  {
    var u := Upper(s);
    CaseExactly(s, "CON");
    CaseExactly(s, "PRN");
    CaseExactly(s, "AUX");
    CaseExactly(s, "NUL");
    NumberedDevice(u, "COM");
    NumberedDevice(u, "LPT");
    if |s| == 4 {
      CaseExactly(s[..3], "COM");
      CaseExactly(s[..3], "LPT");
      assert u[..3] == Upper(s[..3]);
    }
  }

  /** The stem is what comes before the first dot. */
  lemma {:induction false} StemExactly(stem: string, rest: string)
    requires '.' !in stem && (rest == "" || rest[0] == '.')
    ensures Stem(stem + rest) == stem
  {
    if stem == "" {
      assert stem + rest == rest;
    } else {
      StemExactly(stem[1..], rest);
      assert (stem + rest)[1..] == stem[1..] + rest;
    }
  }

  lemma {:induction false} StemSplits(s: string) returns (rest: string)
    ensures s == Stem(s) + rest && '.' !in Stem(s) && (rest == "" || rest[0] == '.')
  {
    if s == "" || s[0] == '.' {
      rest := s;
    } else {
      rest := StemSplits(s[1..]);
      assert s == [s[0]] + s[1..];
    }
  }

  lemma {:induction false} StripExactly(s: string, tail: string)
    requires (s == "" || s[|s| - 1] !in " .") && forall c | c in tail :: c in " ."
    ensures StripRight(s + tail) == s
  {
    if tail == "" {
      assert s + tail == s;
    } else {
      StripExactly(s, tail[..|tail| - 1]);
      assert (s + tail)[..|s + tail| - 1] == s + tail[..|tail| - 1];
    }
  }

  lemma {:induction false} StripSplits(s: string) returns (tail: string)
    ensures s == StripRight(s) + tail && forall c | c in tail :: c in " ."
  {
    if s != "" && s[|s| - 1] in " ." {
      tail := StripSplits(s[..|s| - 1]);
      tail := tail + [s[|s| - 1]];
    } else {
      tail := "";
    }
  }

  lemma DeviceEnds(s: string)
    requires IsDevice(s)
    ensures s != "" && '.' !in s && s[|s| - 1] !in " ."
  {
  }

  /** The check on the stem finds exactly the reserved names. */
  lemma ReservedExactly(part: string)
    ensures Upper(StripRight(Stem(part))) in RESERVED_NAMES <==> Reserved(part)
  {
    hide IsDevice, Upper;
    DeviceExactly(StripRight(Stem(part)));
    if IsDevice(StripRight(Stem(part))) {
      var rest := StemSplits(part);
      var spaces := StripSplits(Stem(part));
      forall c | c in spaces
        ensures c == ' '
      {
        assert c in Stem(part);
      }
      assert part == StripRight(Stem(part)) + spaces + rest;
    }
    if Reserved(part) {
      var name, spaces, rest :|
        && part == name + spaces + rest && IsDevice(name)
        && (forall c | c in spaces :: c == ' ') && (rest == "" || rest[0] == '.');
      DeviceEnds(name);
      StemExactly(name + spaces, rest);
      StripExactly(name, spaces);
    }
  }

  // --------------------------------------------------------------- the rules

  /** The characters of a path are its separators and those of its parts. */
  lemma {:induction false} PartsHoldAll(path: string, c: char)
    requires c != '/'
    ensures c in path <==> exists part | part in Split(path) :: c in part
  {
    if path != "" {
      var rest := Split(path[1..]);
      PartsHoldAll(path[1..], c);
      assert path == [path[0]] + path[1..];
      if path[0] == '/' {
        assert forall part | part in Split(path) :: part == "" || part in rest;
        assert forall part | part in rest :: part in Split(path);
      } else {
        var first := [path[0]] + rest[0];
        assert Split(path) == [first] + rest[1..] && rest == [rest[0]] + rest[1..];
        assert first in Split(path) && forall part | part in rest[1..] :: part in Split(path) && part in rest;
        assert forall part | part in Split(path) :: part == first || part in rest[1..];
        assert forall part | part in rest :: part == rest[0] || part in rest[1..];
      }
    }
  }

  /** A part of a path that every system can create. */
  ghost predicate GoodPart(part: string) {
    && part != "" && part[|part| - 1] != '.' && part[|part| - 1] != ' ' && !Reserved(part)
    && forall c | c in part ::
         && c !in {'<', '>', ':', '"', '|', '?', '*', '\\'}
         && c as int >= 32 && !(127 <= c as int <= 159)
  }

  lemma PortableExactly(part: string)
    ensures GoodPart(part)
       <==> PortableSegment(part) && '\\' !in part && forall c | c in part :: !IsControl(c)
  {
    ReservedExactly(part);
    hide Reserved, Upper, Stem, StripRight;
    assert forall c :: c in FORBIDDEN <==> c in {'<', '>', ':', '"', '|', '?', '*'};
  }

  /** A path is valid exactly when it has one to eight parts, each of them good. */
  lemma ValidExactly(path: string)
    ensures CheckPackPath(path) <==> 1 <= |Split(path)| <= 8 && forall part | part in Split(path) :: GoodPart(part)
  {
    hide GoodPart, IsControl, PortableSegment, Split;
    forall part
      ensures GoodPart(part)
         <==> PortableSegment(part) && '\\' !in part && forall c | c in part :: !IsControl(c)
    {
      PortableExactly(part);
    }
    forall c | c != '/'
      ensures c in path <==> exists part | part in Split(path) :: c in part
    {
      PartsHoldAll(path, c);
    }
    if forall part | part in Split(path) :: GoodPart(part) {
      FirstPart(path);
      DotsAreBad();
      SeparatorIsPlain();
    }
    if CheckPackPath(path) {
      forall part | part in Split(path)
        ensures GoodPart(part)
      {
        PartHasNoSeparator(path, part);
      }
    }
  }

  lemma FirstPart(path: string)
    ensures (path == "" || path[0] == '/') ==> "" in Split(path)
  {
  }

  lemma DotsAreBad()
    ensures !GoodPart("") && !GoodPart(".") && !GoodPart("..")
  {
    hide Reserved;
  }

  lemma SeparatorIsPlain()
    ensures !IsControl('/')
  {
  }

  lemma {:induction false} PartHasNoSeparator(path: string, part: string)
    requires part in Split(path)
    ensures '/' !in part
  {
    if path != "" {
      var rest := Split(path[1..]);
      if path[0] == '/' {
        if part != "" {
          PartHasNoSeparator(path[1..], part);
        }
      } else if part in rest[1..] {
        PartHasNoSeparator(path[1..], part);
      } else {
        PartHasNoSeparator(path[1..], rest[0]);
        assert part == [path[0]] + rest[0];
      }
    }
  }

  // ------------------------------------------------------------------- order

  /** `str.encode`. */
  function Utf8(s: string): bytes {
    if s == "" then [] else ScValText.EncodePoint(s[0] as int) + Utf8(s[1..])
  }

  /** The order of byte strings: the first difference decides, and a prefix comes first. */
  ghost predicate Before(a: bytes, b: bytes) {
    exists k :: 0 <= k <= |a| && k < |b| && a[..k] == b[..k] && (k == |a| || a[k] < b[k])
  }

  lemma DifferAt(a: bytes, b: bytes, k: nat)
    requires k < |a| && k < |b| && a[..k] == b[..k] && a[k] < b[k]
    ensures Before(a, b) && !Before(b, a)
  {
    assert forall i | 0 <= i < k :: a[i] == a[..k][i] == b[i];
    forall j | 0 <= j <= |a| && j <= |b| && a[..j] == b[..j]
      ensures j <= k
    {
      assert forall i | 0 <= i < j :: a[i] == a[..j][i] == b[..j][i] == b[i];
    }
  }

  lemma PrefixKept(p: bytes, a: bytes, b: bytes)
    requires Before(a, b)
    ensures Before(p + a, p + b)
  {
    var k :| 0 <= k <= |a| && k < |b| && a[..k] == b[..k] && (k == |a| || a[k] < b[k]);
    assert (p + a)[..|p| + k] == p + a[..k] && (p + b)[..|p| + k] == p + b[..k];
    assert k < |a| ==> (p + a)[|p| + k] == a[k];
    assert (p + b)[|p| + k] == b[k];
  }

  lemma PrefixDropped(p: bytes, a: bytes, b: bytes)
    requires Before(p + a, p + b)
    ensures Before(a, b)
  {
    assert forall i | 0 <= i < |p| :: (p + a)[i] == p[i] == (p + b)[i];
    var j :| && 0 <= j <= |p + a| && j < |p + b| && (p + a)[..j] == (p + b)[..j]
             && (j == |p + a| || (p + a)[j] < (p + b)[j]);
    var k := j - |p|;
    assert a[..k] == (p + a)[..j][|p|..] && b[..k] == (p + b)[..j][|p|..];
  }

  lemma SamePrefix(p: bytes, a: bytes, b: bytes)
    ensures Before(p + a, p + b) <==> Before(a, b)
  {
    hide Before;
    if Before(a, b) {
      PrefixKept(p, a, b);
    }
    if Before(p + a, p + b) {
      PrefixDropped(p, a, b);
    }
  }

  lemma DigitsOrder(c: nat, d: nat)
    requires c <= d
    ensures c / 64 <= d / 64 && (c < d && c / 64 == d / 64 ==> c % 64 < d % 64)
  {
  }

  /** Two byte strings that first differ at `k`, where the first one has the smaller byte. */
  predicate DiffersAt(x: bytes, y: bytes, k: nat) {
    k < |x| && k < |y| && x[..k] == y[..k] && x[k] < y[k]
  }

  lemma OneOrTwo(c: nat, d: nat) returns (k: nat)
    requires c < d < 0x800
    ensures DiffersAt(ScValText.EncodePoint(c), ScValText.EncodePoint(d), k)
  {
    DigitsOrder(c, d);
    k := if d < 0x80 || c < 0x80 || c / 64 < d / 64 then 0 else 1;
  }

  lemma Three(c: nat, d: nat) returns (k: nat)
    requires 0x800 <= c < d < 0x1_0000 && ScValText.IsScalarValue(c) && ScValText.IsScalarValue(d)
    ensures DiffersAt(ScValText.EncodePoint(c), ScValText.EncodePoint(d), k)
  {
    DigitsOrder(c, d);
    DigitsOrder(c / 64, d / 64);
    assert c / 4096 == c / 64 / 64 && d / 4096 == d / 64 / 64;
    k := if c / 4096 < d / 4096 then 0 else if c / 64 < d / 64 then 1 else 2;
  }

  lemma Four(c: nat, d: nat) returns (k: nat)
    requires 0x1_0000 <= c < d <= 0x10FFFF
    ensures DiffersAt(ScValText.EncodePoint(c), ScValText.EncodePoint(d), k)
  {
    DigitsOrder(c, d);
    DigitsOrder(c / 64, d / 64);
    DigitsOrder(c / 4096, d / 4096);
    assert c / 4096 == c / 64 / 64 && d / 4096 == d / 64 / 64;
    assert c / 262144 == c / 4096 / 64 && d / 262144 == d / 4096 / 64;
    k := if c / 262144 < d / 262144 then 0 else if c / 4096 < d / 4096 then 1 else if c / 64 < d / 64 then 2 else 3;
  }

  lemma Longer(c: nat, d: nat)
    requires ScValText.IsScalarValue(c) && ScValText.IsScalarValue(d)
    requires (c < 0x800 <= d) || (c < 0x1_0000 <= d)
    ensures DiffersAt(ScValText.EncodePoint(c), ScValText.EncodePoint(d), 0)
  {
  }

  /** The encodings of two code points first differ where the smaller one has the smaller byte. */
  lemma PointOrder(c: nat, d: nat) returns (k: nat)
    requires ScValText.IsScalarValue(c) && ScValText.IsScalarValue(d) && c < d
    ensures DiffersAt(ScValText.EncodePoint(c), ScValText.EncodePoint(d), k)
  {
    hide ScValText.EncodePoint, DiffersAt;
    if d < 0x800 {
      k := OneOrTwo(c, d);
    } else if 0x800 <= c && d < 0x1_0000 {
      k := Three(c, d);
    } else if 0x1_0000 <= c {
      k := Four(c, d);
    } else {
      k := 0;
      Longer(c, d);
    }
  }

  lemma PointsBefore(c: nat, d: nat, a: bytes, b: bytes)
    requires ScValText.IsScalarValue(c) && ScValText.IsScalarValue(d) && c < d
    ensures Before(ScValText.EncodePoint(c) + a, ScValText.EncodePoint(d) + b)
    ensures !Before(ScValText.EncodePoint(d) + b, ScValText.EncodePoint(c) + a)
  {
    var k := PointOrder(c, d);
    hide ScValText.EncodePoint;
    var x, y := ScValText.EncodePoint(c), ScValText.EncodePoint(d);
    assert (x + a)[..k] == x[..k] && (y + b)[..k] == y[..k];
    DifferAt(x + a, y + b, k);
  }

  /** Paths are in the order of their UTF-8 encodings. */
  lemma {:induction false} Utf8Order(a: string, b: string)
    ensures Less(a, b) <==> Before(Utf8(a), Utf8(b))
  {
    if b == "" {
    } else if a == "" {
      assert |ScValText.EncodePoint(b[0] as int)| > 0;
      assert Utf8(a)[..0] == Utf8(b)[..0];
    } else {
      var c, d := a[0] as int, b[0] as int;
      Utf8Order(a[1..], b[1..]);
      hide Before, ScValText.EncodePoint, ScValText.IsScalarValue;
      if c < d {
        PointsBefore(c, d, Utf8(a[1..]), Utf8(b[1..]));
      } else if d < c {
        PointsBefore(d, c, Utf8(b[1..]), Utf8(a[1..]));
      } else {
        SamePrefix(ScValText.EncodePoint(c), Utf8(a[1..]), Utf8(b[1..]));
      }
    }
  }

  // -------------------------------------------------------------- what is seen

  /** A scan passes over exactly the entries that have a part `.git`. */
  lemma {:induction false} VisibleExactly(fs: Tree, p: string)
    requires WellFormed(fs) && p in fs
    ensures Visible(fs, p) <==> ".git" !in Split(p)
    decreases |p|
  {
    ParentSplits(p);
    NamePlain(p);
    hide Split, Name;
    if '/' in p {
      VisibleExactly(fs, Parent(p));
      SplitConcat(Parent(p), Name(p));
      SplitPlain(Name(p));
    } else {
      SplitPlain(p);
    }
  }
}
