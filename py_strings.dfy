/** The string and path helpers of Python's standard library that the
    scripts rely on: `str.rfind`, `str.split`, `str.join`,
    `os.path.basename`, `os.path.splitext` and `os.path.join`, with the
    POSIX separator '/' and the extension separator '.'. */
module PyStrings {

  /** Number of occurrences of `c` in `s` (`s.count(c)`). */
  function Count(s: string, c: char): nat
  {
    if |s| == 0 then 0 else (if s[0] == c then 1 else 0) + Count(s[1..], c)
  }

  lemma {:induction false} CountZero(s: string, c: char)
    ensures Count(s, c) == 0 <==> c !in s
  {
    if |s| > 0 {
      CountZero(s[1..], c);
      assert s == [s[0]] + s[1..];
    }
  }

  /** `s.rfind(c)`: the index of the last `c` in `s`, or -1 when there is none. */
  function RFind(s: string, c: char): (r: int)
    ensures -1 <= r < |s|
    ensures r >= 0 ==> s[r] == c
    ensures forall j :: r < j < |s| ==> s[j] != c
  {
    if |s| == 0 then -1
    else if s[|s| - 1] == c then |s| - 1
    else RFind(s[..|s| - 1], c)
  }

  /** The two facts RFind ensures determine it uniquely. */
  lemma RFindIs(s: string, c: char, k: int)
    requires -1 <= k < |s|
    requires k >= 0 ==> s[k] == c
    requires forall j :: k < j < |s| ==> s[j] != c
    ensures RFind(s, c) == k
  {
  }

  /** Finding the last `c` in a concatenation looks in the right part first. */
  lemma RFindAppend(x: string, y: string, c: char)
    ensures RFind(x + y, c) == if RFind(y, c) >= 0 then |x| + RFind(y, c) else RFind(x, c)
  {
    var k := if RFind(y, c) >= 0 then |x| + RFind(y, c) else RFind(x, c);
    assert forall j :: k < j < |x + y| ==> (x + y)[j] != c by {
      forall j | k < j < |x + y| ensures (x + y)[j] != c {
        if j >= |x| { assert (x + y)[j] == y[j - |x|]; } else { assert (x + y)[j] == x[j]; }
      }
    }
    RFindIs(x + y, c, k);
  }

  /** `os.path.basename(p)`: everything after the last '/'. */
  function Basename(p: string): (b: string)
    ensures '/' !in b
    ensures |b| <= |p| && p[|p| - |b|..] == b
    ensures |b| < |p| ==> p[|p| - |b| - 1] == '/'
  {
    var i := RFind(p, '/') + 1;
    assert forall j :: 0 <= j < |p[i..]| ==> p[i..][j] == p[i + j];
    p[i..]
  }

  /** True when some character of `s[lo..hi]` is not a dot. */
  predicate HasNonDot(s: string, lo: int, hi: int)
    requires 0 <= lo <= hi <= |s|
  {
    exists j :: lo <= j < hi && s[j] != '.'
  }

  /** `os.path.splitext(p)`: splits at the last dot of the last path
      component, unless everything before that dot in the component is
      dots (so ".bashrc" and "..." have no extension). */
  function Splitext(p: string): (r: (string, string))
    ensures r.0 + r.1 == p
    ensures r.1 == [] || (r.1[0] == '.' && '.' !in r.1[1..] && '/' !in r.1)
    ensures r.1 != [] ==> exists j :: RFind(p, '/') < j < |r.0| && p[j] != '.'
    ensures r.1 == [] ==>
      forall i, j :: RFind(p, '/') < j < i < |p| && p[i] == '.' ==> p[j] == '.'
  {
    var sepIndex := RFind(p, '/');
    var dotIndex := RFind(p, '.');
    if dotIndex > sepIndex && HasNonDot(p, sepIndex + 1, dotIndex) then
      var ext := p[dotIndex..];
      assert forall j :: 0 <= j < |ext| ==> ext[j] == p[dotIndex + j];
      (p[..dotIndex], ext)
    else
      (p, [])
  }

  /** `os.path.join(a, b)` for two components: `b` replaces `a` when it is
      absolute, otherwise a '/' is put between them unless `a` is empty or
      already ends with one. */
  function PathJoin(a: string, b: string): (r: string)
    ensures |b| <= |r| && r[|r| - |b|..] == b
    ensures r == b || (|a| <= |r| && r[..|a|] == a)
    ensures |b| > 0 && b[0] == '/' ==> r == b
    ensures (|b| == 0 || b[0] != '/') && (|a| == 0 || a[|a| - 1] == '/') ==> r == a + b
    ensures (|b| == 0 || b[0] != '/') && |a| > 0 && a[|a| - 1] != '/' ==> r == a + "/" + b
  {
    if |b| > 0 && b[0] == '/' then b
    else if |a| == 0 || a[|a| - 1] == '/' then a + b
    else a + "/" + b
  }

  /** A name without a separator is its own base name. */
  lemma BasenameOfPlain(s: string)
    requires '/' !in s
    ensures Basename(s) == s
  {
  }

  /** Joining onto a folder leaves the file's base name as it was. */
  lemma BasenameOfJoin(a: string, b: string)
    ensures Basename(PathJoin(a, b)) == Basename(b)
  {
    if |b| > 0 && b[0] == '/' {
      assert PathJoin(a, b) == b;
    } else if |a| == 0 || a[|a| - 1] == '/' {
      assert PathJoin(a, b) == a + b;
      BasenameAfterSeparator(a, b);
    } else {
      var a' := a + "/";
      assert PathJoin(a, b) == a' + b;
      BasenameAfterSeparator(a', b);
    }
  }

  lemma BasenameAfterSeparator(a: string, b: string)
    requires |a| == 0 || a[|a| - 1] == '/'
    ensures Basename(a + b) == Basename(b)
  {
    var k := RFind(b, '/');
    RFindAppend(a, b, '/');
    if k >= 0 {
      assert RFind(a + b, '/') == |a| + k;
      assert (a + b)[|a| + k + 1..] == b[k + 1..];
    } else if |a| == 0 {
      assert a + b == b;
    } else {
      RFindIs(a, '/', |a| - 1);
      assert RFind(a + b, '/') == |a| - 1;
      assert (a + b)[|a|..] == b == b[k + 1..];
    }
  }

  /** `sep.join(parts)`. */
  function JoinWith(parts: seq<string>, sep: string): string
  {
    if |parts| == 0 then []
    else if |parts| == 1 then parts[0]
    else parts[0] + sep + JoinWith(parts[1..], sep)
  }

  /** Total length of a list of strings. */
  function TotalLength(parts: seq<string>): nat
  {
    if |parts| == 0 then 0 else |parts[0]| + TotalLength(parts[1..])
  }

  /** `sep.join` puts exactly one separator between neighbours: n parts
      bring n - 1 separators. */
  lemma {:induction false} JoinWithLength(parts: seq<string>, sep: string)
    ensures |parts| >= 1 ==> |JoinWith(parts, sep)| == TotalLength(parts) + (|parts| - 1) * |sep|
  {
    if |parts| > 1 {
      JoinWithLength(parts[1..], sep);
      assert (|parts| - 1) * |sep| == (|parts| - 2) * |sep| + |sep|;
    }
  }

  /** Appending a part appends the separator and the part. */
  lemma {:induction false} JoinWithSnoc(parts: seq<string>, x: string, sep: string)
    requires |parts| >= 1
    ensures JoinWith(parts + [x], sep) == JoinWith(parts, sep) + sep + x
  {
    if |parts| == 1 {
      assert parts + [x] == [parts[0], x];
    } else {
      assert (parts + [x])[1..] == parts[1..] + [x];
      JoinWithSnoc(parts[1..], x, sep);
    }
  }

  /** `s.split(c)`: the pieces between occurrences of `c`, empty pieces
      included; there is always one more piece than there are separators. */
  function Split(s: string, c: char): (parts: seq<string>)
    ensures |parts| == Count(s, c) + 1
    ensures forall i :: 0 <= i < |parts| ==> c !in parts[i]
    ensures JoinWith(parts, [c]) == s
    decreases |s|
  {
    if |s| == 0 then [[]]
    else
      var rest := Split(s[1..], c);
      if s[0] == c then
        assert JoinWith([[]] + rest, [c]) == [c] + JoinWith(rest, [c]);
        [[]] + rest
      else
        var parts := [[s[0]] + rest[0]] + rest[1..];
        assert JoinWith(parts, [c]) == [s[0]] + JoinWith(rest, [c]) by {
          if |rest| > 1 {
            assert parts[1..] == rest[1..];
          }
        }
        parts
  }

  /** A split into exactly two pieces is a split at the only separator. */
  lemma SplitTwo(s: string, c: char, x: string, y: string)
    requires Split(s, c) == [x, y]
    ensures s == x + [c] + y && c !in x && c !in y
  {
    var parts := Split(s, c);
    assert parts[0] == x && parts[1] == y;
    assert JoinWith(parts, [c]) == x + [c] + JoinWith(parts[1..], [c]);
    assert parts[1..] == [y];
  }

  /** A string without the separator splits into itself alone. */
  lemma SplitNone(s: string, c: char)
    requires c !in s
    ensures Split(s, c) == [s]
  {
    CountZero(s, c);
  }

  /** Splitting peels off the piece before the first separator. */
  lemma {:induction false} SplitAfterPiece(x: string, c: char, y: string)
    requires c !in x
    ensures Split(x + [c] + y, c) == [x] + Split(y, c)
  {
    if |x| == 0 {
      assert x + [c] + y == [c] + y;
      assert ([c] + y)[1..] == y;
    } else {
      SplitAfterPiece(x[1..], c, y);
      assert (x + [c] + y)[1..] == x[1..] + [c] + y;
      assert [x[0]] + x[1..] == x;
    }
  }

  /** A base name whose last dot is at `d`, with something other than a
      dot in front, splits at that dot. */
  lemma SplitextAtDot(base: string, d: int)
    requires '/' !in base && 0 < d < |base| && base[0] != '.'
    requires RFind(base, '.') == d
    ensures Splitext(base) == (base[..d], base[d..])
  {
    RFindIs(base, '/', -1);
    assert HasNonDot(base, 0, d);
  }

  /** A character in neither string is not in their concatenation. */
  lemma NoCharInConcat(a: string, b: string, c: char)
    requires c !in a && c !in b
    ensures c !in a + b
  {
    assert forall j :: 0 <= j < |a + b| ==> (a + b)[j] == if j < |a| then a[j] else b[j - |a|];
  }

  /** A character in no part and not in the separator is not in the join. */
  lemma {:induction false} JoinWithNoChar(parts: seq<string>, sep: string, c: char)
    requires c !in sep && forall i :: 0 <= i < |parts| ==> c !in parts[i]
    ensures c !in JoinWith(parts, sep)
  {
    if |parts| > 1 {
      JoinWithNoChar(parts[1..], sep, c);
    }
  }

  /** A name made of a root that does not start with a dot, a dot and a
      dotless extension loses exactly the dot and the extension to
      `Splitext`. */
  lemma SplitextAtLastDot(base: string, root: string, ext: string)
    requires base == root + "." + ext && '.' !in ext
    requires '/' !in base && |root| > 0 && root[0] != '.'
    ensures Splitext(base) == (root, "." + ext)
  {
    var d := |root|;
    assert base[d] == '.';
    assert forall j :: d < j < |base| ==> base[j] == ext[j - d - 1];
    RFindIs(base, '.', d);
    SplitextAtDot(base, d);
    assert base[..d] == root;
    assert base[d..] == "." + ext;
  }
}
