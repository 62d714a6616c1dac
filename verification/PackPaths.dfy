/**
 Pack-relative paths: their order, their parent directories, and the rules both the registry
 generator and the archive extractor apply to them.
 */
module PackPaths {
  import opened Bytes

  /** Files by path. */
  type Files = map<string, bytes>

  // -------------------------------------------------------------- splitting

  /** `text.split("/")`. */
  function Split(text: string): (parts: seq<string>)
    ensures parts != []
  {
    if text == "" then [""]
    else
      var rest := Split(text[1..]);
      if text[0] == '/' then [""] + rest else [[text[0]] + rest[0]] + rest[1..]
  }

  /** `"/".join(parts)`. */
  function Join(parts: seq<string>): string {
    if parts == [] then ""
    else if |parts| == 1 then parts[0]
    else parts[0] + "/" + Join(parts[1..])
  }

  lemma {:induction false} JoinSplit(text: string)
    ensures Join(Split(text)) == text
  {
    if text != "" {
      var rest := Split(text[1..]);
      JoinSplit(text[1..]);
      if text[0] == '/' {
        assert Split(text)[1..] == rest;
      } else {
        assert Split(text)[1..] == rest[1..];
      }
    }
  }

  lemma SplitInjective(a: string, b: string)
    ensures Split(a) == Split(b) <==> a == b
  {
    JoinSplit(a);
    JoinSplit(b);
  }

  lemma {:induction false} SplitPlain(s: string)
    requires '/' !in s
    ensures Split(s) == [s]
  {
    if s != "" {
      SplitPlain(s[1..]);
      assert s == [s[0]] + s[1..];
    }
  }

  /** The parts of a text with one more character in front. */
  function InFront(c: char, parts: seq<string>): seq<string>
    requires parts != []
  {
    if c == '/' then [""] + parts else [[c] + parts[0]] + parts[1..]
  }

  lemma SplitCons(c: char, rest: string)
    ensures Split([c] + rest) == InFront(c, Split(rest))
  {
    assert ([c] + rest)[1..] == rest;
  }

  lemma InFrontConcat(c: char, xs: seq<string>, ys: seq<string>)
    requires xs != []
    ensures InFront(c, xs + ys) == InFront(c, xs) + ys
  {
    assert (xs + ys)[1..] == xs[1..] + ys;
  }

  lemma {:induction false} SplitConcat(a: string, b: string)
    ensures Split(a + "/" + b) == Split(a) + Split(b)
  {
    if a == "" {
      SplitCons('/', b);
      assert "" + "/" + b == ['/'] + b;
    } else {
      SplitConcat(a[1..], b);
      hide Split, InFront;
      SplitCons(a[0], a[1..]);
      SplitCons(a[0], a[1..] + "/" + b);
      InFrontConcat(a[0], Split(a[1..]), Split(b));
      assert a == [a[0]] + a[1..] && a + "/" + b == [a[0]] + (a[1..] + "/" + b);
    }
  }

  lemma {:induction false} JoinConcat(xs: seq<string>, ys: seq<string>)
    requires xs != [] && ys != []
    ensures Join(xs + ys) == Join(xs) + "/" + Join(ys)
  {
    if |xs| == 1 {
      assert (xs + ys)[1..] == ys;
    } else {
      JoinConcat(xs[1..], ys);
      assert (xs + ys)[1..] == xs[1..] + ys;
    }
  }

  // ------------------------------------------------------ parent directories

  /** Every directory above a path. */
  function Parents(path: string): set<string> {
    set i | 0 <= i < |path| && path[i] == '/' :: path[..i]
  }

  /** The part before the last separator, or nothing; `rpartition("/")[0]`. */
  function Parent(path: string): (d: string)
    ensures path != "" ==> |d| < |path|
  {
    if path == "" then ""
    else if path[|path| - 1] == '/' then path[..|path| - 1]
    else Parent(path[..|path| - 1])
  }

  function Name(path: string): string {
    if path == "" then ""
    else if path[|path| - 1] == '/' then ""
    else Name(path[..|path| - 1]) + [path[|path| - 1]]
  }

  /** The leading parts of a split path, joined again, are exactly its parent directories. */
  lemma PartsAreParents(path: string, k: nat)
    requires 0 < k < |Split(path)|
    ensures Join(Split(path)[..k]) in Parents(path)
  {
    var parts := Split(path);
    var a, b := Join(parts[..k]), Join(parts[k..]);
    JoinConcat(parts[..k], parts[k..]);
    assert parts == parts[..k] + parts[k..];
    JoinSplit(path);
    assert path == a + "/" + b;
    assert path[|a|] == '/' && path[..|a|] == a;
  }

  lemma ParentsAreParts(path: string, d: string) returns (k: nat)
    requires d in Parents(path)
    ensures 0 < k < |Split(path)| && Join(Split(path)[..k]) == d
  {
    var i :| 0 <= i < |path| && path[i] == '/' && path[..i] == d;
    var b := path[i + 1..];
    assert path == d + "/" + b;
    SplitConcat(d, b);
    JoinSplit(d);
    k := |Split(d)|;
    assert Split(path)[..k] == Split(d);
  }

  /** A path with a separator continues its parent; the parents of a path are its parent and that one's parents. */
  lemma {:induction false} ParentSplits(path: string)
    ensures '/' !in path ==> Parent(path) == "" && Parents(path) == {} && Name(path) == path
    ensures '/' in path ==>
              && path == Parent(path) + "/" + Name(path)
              && Parents(path) == Parents(Parent(path)) + {Parent(path)}
  {
    if path != "" {
      var front, last := path[..|path| - 1], path[|path| - 1];
      assert path == front + [last];
      ParentsSnoc(front, last);
      if last != '/' {
        ParentSplits(front);
      }
    }
  }

  lemma {:induction false} NamePlain(path: string)
    ensures '/' !in Name(path)
  {
    if path != "" && path[|path| - 1] != '/' {
      NamePlain(path[..|path| - 1]);
    }
  }

  lemma ParentsSnoc(front: string, last: char)
    ensures Parents(front + [last]) == if last == '/' then Parents(front) + {front} else Parents(front)
  {
    var path := front + [last];
    forall i | 0 <= i < |path|
      ensures path[..i] == if i < |front| then front[..i] else front
    {
    }
    forall d | d in Parents(path)
      ensures d in Parents(front) || (last == '/' && d == front)
    {
    }
    forall d | d in Parents(front)
      ensures d in Parents(path)
    {
      var i :| 0 <= i < |front| && front[i] == '/' && front[..i] == d;
      assert path[i] == '/' && path[..i] == d;
    }
    if last == '/' {
      assert path[|front|] == '/' && path[..|front|] == front;
    }
  }

  // -------------------------------------------------------------- path rules

  const MAX_DEPTH: nat := 8
  const RESERVED_NAMES: set<string> := {"CON", "PRN", "AUX", "NUL"} + Numbered("COM") + Numbered("LPT")
  const FORBIDDEN: string := "<>:\"|?*"

  /** A device name with each of the numbers from 1 to 9. */
  function Numbered(name: string): set<string> {
    set d | d in "123456789" :: name + [d]
  }

  function Upper(s: string): string {
    seq(|s|, i requires 0 <= i < |s| => if 'a' <= s[i] <= 'z' then (s[i] as int - 32) as char else s[i])
  }

  /** The part before the first dot. */
  function Stem(s: string): string {
    if s == "" || s[0] == '.' then "" else [s[0]] + Stem(s[1..])
  }

  function StripRight(s: string): string
  {
    if s != "" && s[|s| - 1] in " ." then StripRight(s[..|s| - 1]) else s
  }

  /** `portable_names.check_segment`: a name Windows can create. */
  predicate PortableSegment(segment: string) {
    && segment != "" && segment[|segment| - 1] !in ". "
    && (forall c | c in segment :: c !in FORBIDDEN)
    && Upper(StripRight(Stem(segment))) !in RESERVED_NAMES
  }

  /** Unicode category Cc, which includes NUL. */
  predicate IsControl(c: char) {
    c as int < 0x20 || 0x7F <= c as int <= 0x9F
  }

  /** `check_pack_path`. */
  predicate CheckPackPath(path: string) {
    && path != "" && '\\' !in path && path[0] != '/'
    && (forall segment | segment in Split(path) :: segment !in {"", ".", ".."} && PortableSegment(segment))
    && (forall c | c in path :: !IsControl(c))
    && |Split(path)| <= MAX_DEPTH
  }

  /** `_check_member_path`: the consumer's own checks, then the two shared ones. */
  predicate CheckMemberPath(name: string) {
    && !(name != "" && name[0] == '/')
    && '\\' !in name && '\0' !in name
    && (forall part | part in Split(name) :: part != "")
    && (forall part | part in Split(name) :: part !in {".", ".."})
    && |Split(name)| <= MAX_DEPTH
    && (forall part | part in Split(name) :: PortableSegment(part))
    && CheckPackPath(name)
  }

  /** Producer and consumer accept the same names, and the shared rule alone decides. */
  lemma MemberPathAgrees(name: string)
    ensures CheckMemberPath(name) <==> CheckPackPath(name)
  {
    if CheckPackPath(name) {
      assert '\0' !in name by {
        assert IsControl('\0');
      }
    }
  }

  /** Directories above a valid path are valid paths. */
  lemma ParentsValid(path: string, d: string)
    requires CheckPackPath(path) && d in Parents(path)
    ensures CheckPackPath(d)
  {
    hide PortableSegment;
    var i :| 0 <= i < |path| && path[i] == '/' && path[..i] == d;
    var b := path[i + 1..];
    assert path == d + "/" + b;
    SplitConcat(d, b);
    assert i > 0;
    forall c | c in d
      ensures c in path
    {
    }
    assert forall segment | segment in Split(d) :: segment in Split(path);
  }

  // ------------------------------------------------------------------- order

  /** Code-point order, which is the order of the UTF-8 encodings. */
  predicate Less(a: string, b: string) {
    if b == "" then false
    else if a == "" then true
    else a[0] < b[0] || (a[0] == b[0] && Less(a[1..], b[1..]))
  }

  lemma {:induction false} LessTotal(a: string, b: string)
    ensures a == b || Less(a, b) || Less(b, a)
    ensures !(Less(a, b) && Less(b, a)) && (a == b ==> !Less(a, b))
  {
    if a != "" && b != "" {
      LessTotal(a[1..], b[1..]);
      assert a == [a[0]] + a[1..] && b == [b[0]] + b[1..];
    }
  }

  lemma {:induction false} LessTransitive(a: string, b: string, c: string)
    requires Less(a, b) && Less(b, c)
    ensures Less(a, c)
  {
    if a != "" && a[0] == b[0] && b[0] == c[0] {
      LessTransitive(a[1..], b[1..], c[1..]);
    }
  }

  /** A directory sorts before everything below it. */
  lemma {:induction false} PrefixLess(a: string, b: string)
    requires a < b
    ensures Less(a, b)
  {
    if a != "" {
      PrefixLess(a[1..], b[1..]);
    }
  }

  ghost predicate StrictlySorted(s: seq<string>) {
    forall i, j | 0 <= i < j < |s| :: Less(s[i], s[j])
  }

  ghost function Elements(s: seq<string>): set<string> {
    set x | x in s
  }

  /** Only one strictly sorted sequence has given elements. */
  lemma {:induction false} SortedUnique(s: seq<string>, t: seq<string>)
    requires StrictlySorted(s) && StrictlySorted(t) && Elements(s) == Elements(t)
    ensures s == t
  {
    if s == [] {
      if t != [] {
        HasElement(t);
      }
    } else if t == [] {
      HasElement(s);
    } else {
      LeastIsFirst(s, t);
      LeastIsFirst(t, s);
      LessTotal(s[0], t[0]);
      TailElements(s);
      TailElements(t);
      SortedUnique(s[1..], t[1..]);
      assert s == [s[0]] + s[1..] && t == [t[0]] + t[1..];
    }
  }

  lemma HasElement(s: seq<string>)
    requires s != []
    ensures Elements(s) != {}
  {
    assert s[0] in Elements(s);
  }

  lemma LeastIsFirst(s: seq<string>, t: seq<string>)
    requires StrictlySorted(s) && s != [] && t != [] && Elements(s) == Elements(t)
    ensures s[0] == t[0] || Less(s[0], t[0])
  {
    assert t[0] in Elements(t);
    var i :| 0 <= i < |s| && s[i] == t[0];
  }

  lemma TailElements(s: seq<string>)
    requires StrictlySorted(s) && s != []
    ensures StrictlySorted(s[1..]) && Elements(s[1..]) == Elements(s) - {s[0]}
  {
    forall i | 1 <= i < |s|
      ensures s[i] != s[0]
    {
      LessTotal(s[0], s[i]);
    }
    assert s == [s[0]] + s[1..];
  }

  /** `sorted(...)` with the UTF-8 key, by insertion. */
  method Sort(names: set<string>) returns (r: seq<string>)
    ensures StrictlySorted(r) && Elements(r) == names
  {
    r := [];
    var left := names;
    while left != {}
      invariant left <= names && StrictlySorted(r) && Elements(r) == names - left
      decreases left
    {
      var x :| x in left;
      left := left - {x};
      var i := 0;
      while i < |r| && Less(r[i], x)
        invariant 0 <= i <= |r| && forall k | 0 <= k < i :: Less(r[k], x)
      {
        i := i + 1;
      }
      Inserted(r, x, i);
      r := r[..i] + [x] + r[i..];
    }
  }

  lemma Inserted(s: seq<string>, x: string, i: nat)
    requires StrictlySorted(s) && x !in s && i <= |s|
    requires (forall k | 0 <= k < i :: Less(s[k], x)) && (i < |s| ==> !Less(s[i], x))
    ensures StrictlySorted(s[..i] + [x] + s[i..]) && Elements(s[..i] + [x] + s[i..]) == Elements(s) + {x}
  {
    var t := s[..i] + [x] + s[i..];
    forall k | i <= k < |s|
      ensures Less(x, s[k])
    {
      LessTotal(x, s[i]);
      if i < k {
        LessTransitive(x, s[i], s[k]);
      }
    }
    forall a, b | 0 <= a < b < |t|
      ensures Less(t[a], t[b])
    {
      var a', b' := if a < i then a else a - 1, if b < i then b else b - 1;
      assert a != i ==> t[a] == s[a'];
      assert b != i ==> t[b] == s[b'];
    }
    assert s == s[..i] + s[i..];
  }

  /** The sorted sequence of a set, as a specification. */
  ghost function Sorted(names: set<string>): (r: seq<string>)
    ensures StrictlySorted(r) && Elements(r) == names
  {
    SortedExists(names);
    var r :| StrictlySorted(r) && Elements(r) == names;
    r
  }

  lemma {:induction false} SortedExists(names: set<string>)
    ensures exists r :: StrictlySorted(r) && Elements(r) == names
  {
    if names == {} {
      assert StrictlySorted([]) && Elements([]) == {};
    } else {
      var x :| x in names;
      SortedExists(names - {x});
      var r :| StrictlySorted(r) && Elements(r) == names - {x};
      var i := 0;
      while i < |r| && Less(r[i], x)
        invariant 0 <= i <= |r| && forall k | 0 <= k < i :: Less(r[k], x)
      {
        i := i + 1;
      }
      assert x !in Elements(r);
      Inserted(r, x, i);
      assert names == names - {x} + {x};
    }
  }

  lemma SortedIs(r: seq<string>)
    requires StrictlySorted(r)
    ensures r == Sorted(Elements(r))
  {
    SortedUnique(r, Sorted(Elements(r)));
  }
}
