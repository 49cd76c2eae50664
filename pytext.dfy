/**
  The pieces of Python's string and POSIX path library that the zip handler
  relies on: `str.split` with a one-character separator, `str.rfind`,
  `str.startswith` / `str.endswith`, `posixpath.basename` and
  `posixpath.splitext`.
 */
module PyText {

  /** `s.startswith(t)` */
  predicate StartsWith(s: string, t: string) {
    t <= s
  }

  /** `s.endswith(t)` */
  predicate EndsWith(s: string, t: string) {
    |t| <= |s| && s[|s| - |t|..] == t
  }

  /** `s.split(sep)` for a one-character separator. */
  function Split(s: string, sep: char): (parts: seq<string>)
    ensures |parts| >= 1
    ensures forall i :: 0 <= i < |parts| ==> sep !in parts[i]
  {
    if s == [] then [""]
    else
      var rest := Split(s[1..], sep);
      if s[0] == sep then [""] + rest
      else [[s[0]] + rest[0]] + rest[1..]
  }

  /** `sep.join(parts)`, the inverse of `Split`. */
  function Join(parts: seq<string>, sep: char): string
    requires |parts| >= 1
  {
    if |parts| == 1 then parts[0]
    else parts[0] + [sep] + Join(parts[1..], sep)
  }

  /** Joining the pieces of a split gives back the original string. */
  lemma {:induction false} JoinSplit(s: string, sep: char)
    ensures Join(Split(s, sep), sep) == s
  {
    if s != [] {
      var rest := Split(s[1..], sep);
      JoinSplit(s[1..], sep);
      if s[0] == sep {
        assert ([""] + rest)[1..] == rest;
      } else if |rest| > 1 {
        assert ([[s[0]] + rest[0]] + rest[1..])[1..] == rest[1..];
      }
    }
  }

  /** Splitting text that starts with a separator-free piece extends the first part. */
  lemma {:induction false} SplitPrefix(p: string, t: string, sep: char)
    requires sep !in p
    ensures Split(p + t, sep) == [p + Split(t, sep)[0]] + Split(t, sep)[1..]
  {
    if p != [] {
      assert (p + t)[1..] == p[1..] + t;
      SplitPrefix(p[1..], t, sep);
      assert [p[0]] + (p[1..] + Split(t, sep)[0]) == p + Split(t, sep)[0];
    } else {
      var parts := Split(t, sep);
      assert p + t == t && p + parts[0] == parts[0];
      assert parts == [parts[0]] + parts[1..];
    }
  }

  /** Splitting a join of separator-free pieces gives back the pieces. */
  lemma {:induction false} SplitJoin(parts: seq<string>, sep: char)
    requires |parts| >= 1
    requires forall i :: 0 <= i < |parts| ==> sep !in parts[i]
    ensures Split(Join(parts, sep), sep) == parts
  {
    if |parts| == 1 {
      SplitPrefix(parts[0], "", sep);
      assert parts[0] + "" == parts[0];
    } else {
      var tail := Join(parts[1..], sep);
      SplitJoin(parts[1..], sep);
      assert parts[0] + [sep] + tail == parts[0] + ([sep] + tail);
      SplitPrefix(parts[0], [sep] + tail, sep);
      assert ([sep] + tail)[1..] == tail;
      assert Split([sep] + tail, sep) == [""] + parts[1..];
      assert parts[0] + "" == parts[0];
    }
  }

  /**
    The first piece of a split is the text up to, not including, the first
    separator; it is the whole string when there is no separator.
   */
  lemma {:induction false} SplitHead(s: string, sep: char)
    ensures Split(s, sep)[0] <= s
    ensures |Split(s, sep)[0]| < |s| ==> s[|Split(s, sep)[0]|] == sep
    ensures sep !in s ==> Split(s, sep)[0] == s
  {
    if s != [] && s[0] != sep {
      SplitHead(s[1..], sep);
    }
  }

  /** `s.rfind(c)`: the index of the last occurrence of `c`, or -1. */
  function RFind(s: string, c: char): (r: int)
    ensures -1 <= r < |s|
  {
    LastBefore(s, c, |s|)
  }

  /** The index of the last occurrence of `c` among the first `n` characters, or -1. */
  function LastBefore(s: string, c: char, n: nat): (r: int)
    requires n <= |s|
    ensures -1 <= r < n
  {
    if n == 0 then -1
    else if s[n - 1] == c then n - 1
    else LastBefore(s, c, n - 1)
  }

  lemma {:induction false} LastBeforeLast(s: string, c: char, n: nat)
    requires n <= |s|
    ensures LastBefore(s, c, n) >= 0 ==> s[LastBefore(s, c, n)] == c
    ensures forall j :: LastBefore(s, c, n) < j < n ==> s[j] != c
  {
    if n > 0 && s[n - 1] != c {
      LastBeforeLast(s, c, n - 1);
    }
  }

  lemma {:induction false} LastBeforeAt(s: string, c: char, n: nat, k: nat)
    requires k < n <= |s| && s[k] == c
    requires forall j :: k < j < n ==> s[j] != c
    ensures LastBefore(s, c, n) == k
  {
    if k < n - 1 {
      LastBeforeAt(s, c, n - 1, k);
    }
  }

  lemma {:induction false} LastBeforeAbsent(s: string, c: char, n: nat)
    requires n <= |s|
    requires forall j :: 0 <= j < n ==> s[j] != c
    ensures LastBefore(s, c, n) == -1
  {
    if n > 0 {
      LastBeforeAbsent(s, c, n - 1);
    }
  }

  /** `RFind` finds the last occurrence, and -1 exactly when there is none. */
  lemma RFindLast(s: string, c: char)
    ensures RFind(s, c) >= 0 ==> s[RFind(s, c)] == c
    ensures forall j :: RFind(s, c) < j < |s| ==> s[j] != c
  {
    LastBeforeLast(s, c, |s|);
  }

  /** `RFind` returns the position of an occurrence with no occurrence after it. */
  lemma RFindAt(s: string, c: char, k: nat)
    requires k < |s| && s[k] == c
    requires forall j :: k < j < |s| ==> s[j] != c
    ensures RFind(s, c) == k
  {
    LastBeforeAt(s, c, |s|, k);
  }

  /** `RFind` returns -1 when the character does not occur. */
  lemma RFindAbsent(s: string, c: char)
    requires c !in s
    ensures RFind(s, c) == -1
  {
    LastBeforeAbsent(s, c, |s|);
  }

  /** `posixpath.basename(p)`: the text after the last `/`. */
  function Basename(p: string): string {
    p[RFind(p, '/') + 1..]
  }

  /** The basename of `dir/name` is `name` when `name` has no `/`. */
  lemma BasenameAfterSlash(head: string, name: string)
    requires head != [] && head[|head| - 1] == '/' && '/' !in name
    ensures Basename(head + name) == name
  {
    var p := head + name;
    forall j | |head| - 1 < j < |p|
      ensures p[j] != '/'
    {
      assert p[j] == name[j - |head|];
    }
    RFindAt(p, '/', |head| - 1);
    assert p[|head|..] == name;
  }

  /** The basename is the `/`-free tail of the path, preceded by a `/` if shorter. */
  lemma BasenameFacts(p: string)
    ensures '/' !in Basename(p)
    ensures EndsWith(p, Basename(p))
    ensures |Basename(p)| < |p| ==> p[|p| - |Basename(p)| - 1] == '/'
  {
    var r := RFind(p, '/');
    LastBeforeLast(p, '/', |p|);
    var b := p[r + 1..];
    assert b == Basename(p);
    forall j | 0 <= j < |b| ensures b[j] != '/' {
      assert b[j] == p[r + 1 + j];
    }
    assert p[|p| - |b|..] == b;
  }

  /** A `/`-free suffix of a path is also a suffix of its basename. */
  lemma BasenameKeepsSuffix(p: string, t: string)
    requires EndsWith(p, t) && '/' !in t
    ensures EndsWith(Basename(p), t) && '/' !in Basename(p)
  {
    BasenameFacts(p);
    var b := Basename(p);
    assert |t| <= |b|;
    assert b[|b| - |t|..] == p[|p| - |t|..] by {
      assert p[|p| - |b|..] == b;
    }
  }

  /** Every character of `s` is a dot. */
  predicate AllDots(s: string) {
    s == [] || (s[0] == '.' && AllDots(s[1..]))
  }

  lemma {:induction false} AllDotsIff(s: string)
    ensures AllDots(s) <==> forall i :: 0 <= i < |s| ==> s[i] == '.'
  {
    if s != [] {
      AllDotsIff(s[1..]);
      assert forall i :: 1 <= i < |s| ==> s[i] == s[1..][i - 1];
    }
  }

  /**
    `posixpath.splitext(p)`: the extension is the text from the last dot on,
    provided that dot lies after the last `/` and is preceded, within the last
    path component, by some character other than a dot (so leading dots of a
    name such as `.sav` do not start an extension).
   */
  function SplitExt(p: string): (string, string) {
    var sepIndex := RFind(p, '/');
    var dotIndex := RFind(p, '.');
    if dotIndex > sepIndex && !AllDots(p[sepIndex + 1..dotIndex])
    then (p[..dotIndex], p[dotIndex..])
    else (p, [])
  }

  /**
    Root and extension put together give back the name; a non-empty extension
    is one dot followed by text with no dot and no `/`.
   */
  lemma SplitExtFacts(p: string)
    ensures SplitExt(p).0 + SplitExt(p).1 == p
    ensures var ext := SplitExt(p).1;
            ext == [] || (ext[0] == '.' && '.' !in ext[1..] && '/' !in ext)
  {
    var sepIndex := RFind(p, '/');
    var d := RFind(p, '.');
    if d > sepIndex && !AllDots(p[sepIndex + 1..d]) {
      RFindLast(p, '.');
      RFindLast(p, '/');
      ExtensionTail(p, sepIndex, d);
    }
  }

  /** The text from the last dot on, when that dot follows the last `/`. */
  lemma ExtensionTail(p: string, sepIndex: int, d: int)
    requires -1 <= sepIndex < d < |p| && p[d] == '.'
    requires forall j :: d < j < |p| ==> p[j] != '.'
    requires forall j :: sepIndex < j < |p| ==> p[j] != '/'
    ensures p[..d] + p[d..] == p
    ensures p[d..][0] == '.' && '.' !in p[d..][1..] && '/' !in p[d..]
  {
    var ext := p[d..];
    assert p[..d] + ext == p;
    forall j | 0 <= j < |ext|
      ensures ext[j] != '/' && (j > 0 ==> ext[j] != '.')
    {
      assert ext[j] == p[d + j];
    }
    assert '.' !in ext[1..] by {
      forall j | 0 <= j < |ext| - 1 ensures ext[1..][j] != '.' {
        assert ext[1..][j] == ext[j + 1];
      }
    }
  }

  /**
    The stem of a name that ends in `ext` (a dot followed by dot-free text):
    the extension is removed exactly when something other than dots precedes it.
   */
  lemma StemOfExtension(name: string, ext: string)
    requires '/' !in name && EndsWith(name, ext)
    requires |ext| >= 2 && ext[0] == '.' && '.' !in ext[1..]
    ensures var body := name[..|name| - |ext|];
            SplitExt(name).0 == if AllDots(body) then name else body
  {
    var body := name[..|name| - |ext|];
    var dot := |name| - |ext|;
    assert name[dot..] == ext;
    forall j | dot < j < |name|
      ensures name[j] != '.'
    {
      assert name[j] == ext[1..][j - dot - 1];
    }
    RFindAt(name, '.', dot);
    RFindAbsent(name, '/');
    assert name[0..dot] == body;
  }


}
