/** The PHP and Laravel string helpers the commands use: str_replace with a
    single search string, trim with its default character list, lcfirst,
    basename and Laravel's class_basename. */
module PhpStrings {

  /** `t` occurs in `s` starting at position `i`. */
  predicate StartsAt(s: string, i: nat, t: string) {
    i + |t| <= |s| && s[i..i + |t|] == t
  }

  ghost predicate Contains(s: string, t: string) {
    exists i: nat :: StartsAt(s, i, t)
  }

  /** str_replace(search, replace, s) for one search string: occurrences are
      found from the left and do not overlap; an empty search string leaves
      the subject unchanged. */
  function StrReplace(s: string, search: string, replace: string): string
    decreases |s|
  {
    if search == [] || |s| < |search| then s
    else if StartsAt(s, 0, search) then
      replace + StrReplace(s[|search|..], search, replace)
    else
      [s[0]] + StrReplace(s[1..], search, replace)
  }

  /** Every character of the result comes from the subject or from the
      replacement. */
  lemma {:induction false} StrReplaceChars(s: string, search: string, replace: string)
    ensures forall k :: 0 <= k < |StrReplace(s, search, replace)| ==>
      StrReplace(s, search, replace)[k] in s || StrReplace(s, search, replace)[k] in replace
    decreases |s|
  {
    var r := StrReplace(s, search, replace);
    if search == [] || |s| < |search| {
    } else if StartsAt(s, 0, search) {
      var rest := s[|search|..];
      StrReplaceChars(rest, search, replace);
      var r' := StrReplace(rest, search, replace);
      assert r == replace + r';
      forall k | 0 <= k < |r| ensures r[k] in s || r[k] in replace {
        if k >= |replace| {
          assert r[k] == r'[k - |replace|];
          if r'[k - |replace|] in rest {
            var j :| 0 <= j < |rest| && rest[j] == r'[k - |replace|];
            assert s[j + |search|] == rest[j];
          }
        } else {
          assert r[k] == replace[k];
        }
      }
    } else {
      var rest := s[1..];
      StrReplaceChars(rest, search, replace);
      var r' := StrReplace(rest, search, replace);
      assert r == [s[0]] + r';
      forall k | 0 <= k < |r| ensures r[k] in s || r[k] in replace {
        if k >= 1 {
          assert r[k] == r'[k - 1];
          if r'[k - 1] in rest {
            var j :| 0 <= j < |rest| && rest[j] == r'[k - 1];
            assert s[j + 1] == rest[j];
          }
        } else {
          assert r[0] == s[0];
        }
      }
    }
  }

  /** A subject without the search string comes back unchanged. */
  lemma {:induction false} StrReplaceAbsent(s: string, search: string, replace: string)
    requires !Contains(s, search)
    ensures StrReplace(s, search, replace) == s
    decreases |s|
  {
    if search != [] && |s| >= |search| {
      assert !StartsAt(s, 0, search);
      forall i: nat ensures !StartsAt(s[1..], i, search) {
        StartsAtTail(s, i, search);
      }
      StrReplaceAbsent(s[1..], search, replace);
      assert s == [s[0]] + s[1..];
    }
  }

  /** Replacing one character by another is a pointwise map. */
  lemma {:induction false} StrReplaceChar(s: string, a: char, b: char)
    ensures |StrReplace(s, [a], [b])| == |s|
    ensures forall i :: 0 <= i < |s| ==>
      StrReplace(s, [a], [b])[i] == (if s[i] == a then b else s[i])
  {
    if |s| > 0 {
      StrReplaceChar(s[1..], a, b);
      if StartsAt(s, 0, [a]) {
        assert StrReplace(s, [a], [b]) == [b] + StrReplace(s[1..], [a], [b]);
      } else {
        assert StrReplace(s, [a], [b]) == [s[0]] + StrReplace(s[1..], [a], [b]);
      }
    }
  }

  /** When no occurrence of `search` starts inside `prefix`, replacement
      leaves `prefix` alone and goes on with what follows it. */
  lemma {:induction false} StrReplaceAfterPrefix(prefix: string, tail: string, search: string, replace: string)
    requires search != []
    requires forall i: nat :: i < |prefix| ==> !StartsAt(prefix + tail, i, search)
    ensures StrReplace(prefix + tail, search, replace) == prefix + StrReplace(tail, search, replace)
  {
    if prefix != [] {
      var s := prefix + tail;
      var p' := prefix[1..];
      assert s[1..] == p' + tail;
      forall i: nat | i < |p'| ensures !StartsAt(p' + tail, i, search) {
        StartsAtTail(s, i, search);
      }
      StrReplaceAfterPrefix(p', tail, search, replace);
      AfterPrefixStep(prefix, tail, search, replace);
    } else {
      assert prefix + tail == tail;
    }
  }

  lemma AfterPrefixStep(prefix: string, tail: string, search: string, replace: string)
    requires search != [] && prefix != [] && !StartsAt(prefix + tail, 0, search)
    requires StrReplace(prefix[1..] + tail, search, replace) == prefix[1..] + StrReplace(tail, search, replace)
    ensures StrReplace(prefix + tail, search, replace) == prefix + StrReplace(tail, search, replace)
  {
    var s := prefix + tail;
    assert s[1..] == prefix[1..] + tail;
    StrReplaceSkip(s, search, replace);
    var t := StrReplace(tail, search, replace);
    assert [prefix[0]] + prefix[1..] == prefix;
    assert [prefix[0]] + (prefix[1..] + t) == ([prefix[0]] + prefix[1..]) + t;
  }

  /** One step of the scan when an occurrence starts at the front. */
  lemma StrReplaceFront(s: string, search: string, replace: string)
    requires search != [] && StartsAt(s, 0, search)
    ensures StrReplace(s, search, replace) == replace + StrReplace(s[|search|..], search, replace)
  {
  }

  /** One step of the scan when no occurrence starts at the front. */
  lemma StrReplaceSkip(s: string, search: string, replace: string)
    requires search != [] && s != [] && !StartsAt(s, 0, search)
    ensures StrReplace(s, search, replace) == [s[0]] + StrReplace(s[1..], search, replace)
  {
    if |s| < |search| {
      assert StrReplace(s[1..], search, replace) == s[1..];
      assert s == [s[0]] + s[1..];
    }
  }

  /** An occurrence that ends within `a` is the same in `a + b`. */
  lemma StartsAtInPrefix(a: string, b: string, i: nat, t: string)
    requires i + |t| <= |a|
    ensures StartsAt(a + b, i, t) <==> StartsAt(a, i, t)
  {
    assert (a + b)[i..i + |t|] == a[i..i + |t|];
  }

  lemma StartsAtTail(s: string, i: nat, t: string)
    requires |s| > 0
    ensures StartsAt(s[1..], i, t) <==> StartsAt(s, i + 1, t)
  {
    if i + 1 + |t| <= |s| {
      assert s[1..][i..i + |t|] == s[i + 1..i + 1 + |t|];
    }
  }

  /** Replacement keeps the first `k` characters when no occurrence starts
      among them. */
  lemma {:induction false} StrReplaceKeepsPrefix(s: string, search: string, replace: string, k: nat)
    requires search != [] && k <= |s|
    requires forall j: nat :: j < k ==> !StartsAt(s, j, search)
    ensures |StrReplace(s, search, replace)| >= k
    ensures StrReplace(s, search, replace)[..k] == s[..k]
  {
    if k > 0 && |s| >= |search| {
      assert !StartsAt(s, 0, search);
      var tail := s[1..];
      forall j: nat | j < k - 1 ensures !StartsAt(tail, j, search) {
        assert !StartsAt(s, j + 1, search);
        if j + |search| <= |tail| {
          assert tail[j..j + |search|] == s[j + 1..j + 1 + |search|];
        }
      }
      StrReplaceKeepsPrefix(tail, search, replace, k - 1);
      var r := StrReplace(tail, search, replace);
      assert StrReplace(s, search, replace) == [s[0]] + r;
      assert ([s[0]] + r)[..k] == [s[0]] + r[..k - 1];
      assert [s[0]] + tail[..k - 1] == s[..k];
    }
  }

  /** The characters PHP's trim strips by default: space, tab, line feed,
      carriage return, NUL and vertical tab. */
  predicate IsTrimmed(c: char) {
    c == ' ' || c == '\t' || c == '\n' || c == '\r' || c == '\0' || c == '\U{000B}'
  }

  function TrimStart(s: string): (r: string)
    ensures |r| <= |s| && r == s[|s| - |r|..]
    ensures forall k :: 0 <= k < |s| - |r| ==> IsTrimmed(s[k])
    ensures r == [] || !IsTrimmed(r[0])
  {
    if |s| > 0 && IsTrimmed(s[0]) then TrimStart(s[1..]) else s
  }

  function TrimEnd(s: string): (r: string)
    ensures |r| <= |s| && r == s[..|r|]
    ensures forall k :: |r| <= k < |s| ==> IsTrimmed(s[k])
    ensures r == [] || !IsTrimmed(r[|r| - 1])
  {
    if |s| > 0 && IsTrimmed(s[|s| - 1]) then TrimEnd(s[..|s| - 1]) else s
  }

  /** PHP trim($s): the infix of `s` left after stripping trimmed characters
      from both ends. */
  function Trim(s: string): (r: string)
    ensures r == [] || (!IsTrimmed(r[0]) && !IsTrimmed(r[|r| - 1]))
  {
    TrimEnd(TrimStart(s))
  }

  /** What trim removes is trimmed characters at the two ends, nothing else. */
  lemma TrimIsInfix(s: string)
    ensures exists i :: TrimmedInfix(s, i, Trim(s))
  {
    var t := TrimStart(s);
    assert TrimmedInfix(s, |s| - |t|, Trim(s));
  }

  /** `r` is the infix of `s` at `i`, and only trimmed characters lie around it. */
  predicate TrimmedInfix(s: string, i: int, r: string) {
    0 <= i <= |s| - |r| && r == s[i..i + |r|]
    && (forall k :: 0 <= k < i ==> IsTrimmed(s[k]))
    && (forall k :: i + |r| <= k < |s| ==> IsTrimmed(s[k]))
  }

  /** A string with nothing to strip at either end is its own trim. */
  lemma {:induction false} TrimOfTrimmed(s: string)
    requires s == [] || (!IsTrimmed(s[0]) && !IsTrimmed(s[|s| - 1]))
    ensures Trim(s) == s
  {
    assert TrimStart(s) == s;
    assert TrimEnd(s) == s;
  }

  /** PHP lcfirst: lower-cases the first character when it is an ASCII
      upper-case letter. */
  function Lcfirst(s: string): (r: string)
    ensures |r| == |s|
    ensures s != [] ==> r[1..] == s[1..] && r[0] == LowerAscii(s[0])
  {
    if s != [] then [LowerAscii(s[0])] + s[1..] else s
  }

  /** ASCII lower-casing of one character; every other character is kept. */
  function LowerAscii(c: char): (d: char)
    ensures c != d <==> 'A' <= c <= 'Z'
    ensures 'A' <= c <= 'Z' ==> 'a' <= d <= 'z' && d as int - 'a' as int == c as int - 'A' as int
  {
    if 'A' <= c <= 'Z' then (c as int + 32) as char else c
  }

  function LastSegment(s: string): (r: string)
    ensures '/' !in r
    ensures |r| <= |s| && r == s[|s| - |r|..]
    ensures |r| < |s| ==> s[|s| - |r| - 1] == '/'
  {
    if s == [] || s[|s| - 1] == '/' then []
    else LastSegment(s[..|s| - 1]) + [s[|s| - 1]]
  }

  function TrimTrailingSlashes(s: string): (r: string)
    ensures |r| <= |s| && r == s[..|r|] && (r == [] || r[|r| - 1] != '/')
    ensures forall k :: |r| <= k < |s| ==> s[k] == '/'
  {
    if s != [] && s[|s| - 1] == '/' then TrimTrailingSlashes(s[..|s| - 1]) else s
  }

  /** PHP basename($path) without a suffix argument: the last '/'-separated
      component after trailing slashes are dropped. */
  function Basename(path: string): string {
    LastSegment(TrimTrailingSlashes(path))
  }

  /** Laravel's class_basename($class) on a string:
      basename(str_replace('\\', '/', $class)). */
  function ClassBasename(c: string): (r: string)
    ensures '/' !in r && '\\' !in r
    ensures forall k :: 0 <= k < |r| ==> r[k] in c
  {
    var r := Basename(StrReplace(c, "\\", "/"));
    BasenameChars(c);
    r
  }

  /** Every character of the class basename is a character of the class
      name other than a separator. */
  lemma BasenameChars(c: string)
    ensures '\\' !in Basename(StrReplace(c, "\\", "/"))
    ensures var r := Basename(StrReplace(c, "\\", "/")); forall k :: 0 <= k < |r| ==> r[k] in c
  {
    var p := StrReplace(c, "\\", "/");
    StrReplaceChar(c, '\\', '/');
    var t := TrimTrailingSlashes(p);
    var r := LastSegment(t);
    forall k | 0 <= k < |r| ensures r[k] != '\\' && r[k] in c {
      var j := |t| - |r| + k;
      assert r[k] == t[j];
      assert t[j] == p[j];
      assert r[k] != '/';
      assert r[k] == c[j];
    }
  }

  /** The class basename of `namespace\name` (or `namespace/name`) is `name`. */
  lemma ClassBasenameOfQualified(namespace: string, sep: char, name: string)
    requires sep == '\\' || sep == '/'
    requires name != [] && '/' !in name && '\\' !in name
    ensures ClassBasename(namespace + [sep] + name) == name
  {
    var c := namespace + [sep] + name;
    var p := StrReplace(c, "\\", "/");
    StrReplaceChar(c, '\\', '/');
    var i := |namespace|;
    assert |p| == |c| == i + 1 + |name|;
    assert p[i] == '/' by { assert c[i] == sep; }
    assert forall k :: i < k < |p| ==> p[k] == name[k - i - 1] by {
      forall k | i < k < |p| ensures p[k] == name[k - i - 1] {
        assert c[k] == name[k - i - 1];
      }
    }
    assert p[|p| - 1] != '/';
    assert TrimTrailingSlashes(p) == p;
    LastSegmentAfterSlash(p, i);
    assert p[i + 1..] == name;
    assert ClassBasename(c) == Basename(p) == LastSegment(p);
  }

  /** If position `i` holds the last '/', the last segment is what follows it. */
  lemma {:induction false} LastSegmentAfterSlash(s: string, i: nat)
    requires i < |s| && s[i] == '/'
    requires forall k :: i < k < |s| ==> s[k] != '/'
    ensures LastSegment(s) == s[i + 1..]
    decreases |s|
  {
    if i + 1 < |s| {
      LastSegmentAfterSlash(s[..|s| - 1], i);
      assert s[..|s| - 1][i + 1..] + [s[|s| - 1]] == s[i + 1..];
    }
  }
}
