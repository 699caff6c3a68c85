/**
 * Unix paths as Rust's `std::path` treats them: `PathBuf::push` and
 * `Path::join`, the components of a path, `Path::file_name` and
 * `Path::extension`. A path is its string; `/` is the only separator.
 */
module Paths {
  import opened Wrappers
  import opened Text

  /** On Unix a path is absolute exactly when it has a root, a leading `/`. */
  predicate IsAbsolute(p: string)
    ensures IsAbsolute(p) <==> "/" <= p
  {
    p != [] && p[0] == '/'
  }

  /**
   * The path that `PathBuf::push(p)` leaves in a buffer holding `base`:
   * an absolute `p` replaces the buffer; otherwise a separator is added
   * unless the buffer is empty or already ends in one, and `p` follows.
   */
  function Pushed(base: string, p: string): string {
    if IsAbsolute(p) then p
    else if base != [] && !EndsWith(base, '/') then base + "/" + p
    else base + p
  }

  /** A relative push leaves the buffer, at most one separator, then the pushed path. */
  lemma PushedRelativeShape(base: string, p: string)
    requires !IsAbsolute(p)
    ensures var r := Pushed(base, p);
      base <= r && |base| + |p| <= |r| <= |base| + |p| + 1
      && r[|r| - |p|..] == p
      && (|r| > |base| + |p| ==> r[|base|] == '/')
  {
    if base != [] && !EndsWith(base, '/') {
      var r := base + "/" + p;
      assert r[|r| - |p|..] == p;
      assert r[|base|] == '/';
    } else {
      assert (base + p)[|base|..] == p;
    }
  }

  /** Rust's owned, growable path. */
  class PathBuf {
    var inner: string

    constructor From(s: string)
      ensures inner == s
    {
      inner := s;
    }

    method Push(p: string)
      modifies this
      ensures inner == Pushed(old(inner), p)
    {
      var needSep := inner != [] && !EndsWith(inner, '/');
      if IsAbsolute(p) {
        inner := [];
      } else if needSep {
        inner := inner + "/";
      }
      inner := inner + p;
    }
  }

  /** `Path::join`: a fresh buffer holding `base`, with `p` pushed onto it. */
  method Join(base: string, p: string) returns (r: string)
    ensures IsAbsolute(p) ==> r == p
    ensures !IsAbsolute(p) ==> base <= r && Segments(r) == Segments(base) + Segments(p)
    ensures base != [] && !IsAbsolute(p) ==> (IsAbsolute(r) <==> IsAbsolute(base))
    ensures r == Pushed(base, p)
  {
    var buf := new PathBuf.From(base);
    buf.Push(p);
    r := buf.inner;
    if !IsAbsolute(p) {
      SegmentsOfRelativePush(base, p);
    }
  }

  /** The index of the last `c` in `s`, if any. */
  function LastIndexOf(s: string, c: char): (r: Option<nat>)
    ensures r.Some? ==> r.value < |s| && s[r.value] == c && c !in s[r.value + 1..]
    ensures r.None? ==> c !in s
  {
    if s == [] then None
    else if s[|s| - 1] == c then Some(|s| - 1)
    else match LastIndexOf(s[..|s| - 1], c)
      case None =>
        assert s == s[..|s| - 1] + [s[|s| - 1]];
        None
      case Some(i) =>
        assert s[i + 1..] == s[..|s| - 1][i + 1..] + [s[|s| - 1]];
        Some(i)
  }

  /** An index holding the last `c` of `s` is the one `LastIndexOf` finds. */
  lemma {:induction false} LastIndexOfLast(s: string, c: char, k: nat)
    requires k < |s| && s[k] == c && c !in s[k + 1..]
    ensures LastIndexOf(s, c) == Some(k)
  {
    if k < |s| - 1 {
      var s' := s[..|s| - 1];
      assert s[|s| - 1] == s[k + 1..][|s| - 2 - k];
      assert s[k + 1..] == s'[k + 1..] + [s[|s| - 1]];
      LastIndexOfLast(s', c, k);
    }
  }

  /** A piece between separators names a component unless it is empty or `.`. */
  function Keep(piece: string): seq<string> {
    if piece == "" || piece == "." then [] else [piece]
  }

  /**
   * The names of a path's components, in order, as `Path::components`
   * yields them after dropping the root and the current-directory
   * components: every `Normal` name and every `..`.
   */
  function Segments(p: string): (r: seq<string>)
    ensures forall k :: 0 <= k < |r| ==> r[k] != "" && r[k] != "." && '/' !in r[k]
  {
    SegmentsAfter(p, "")
  }

  /** The components of `piece + p`, where `piece` is the unfinished piece read so far. */
  function SegmentsAfter(p: string, piece: string): (r: seq<string>)
    requires '/' !in piece
    ensures forall k :: 0 <= k < |r| ==> r[k] != "" && r[k] != "." && '/' !in r[k]
  {
    if p == [] then Keep(piece)
    else if p[0] == '/' then Keep(piece) + SegmentsAfter(p[1..], "")
    else SegmentsAfter(p[1..], piece + [p[0]])
  }

  /** A path with no separator is a single piece. */
  lemma {:induction false} SegmentsAfterNoSeparator(p: string, piece: string)
    requires '/' !in p && '/' !in piece
    ensures SegmentsAfter(p, piece) == Keep(piece + p)
  {
    if p != [] {
      assert p[0] in p;
      assert (piece + [p[0]]) + p[1..] == piece + p;
      SegmentsAfterNoSeparator(p[1..], piece + [p[0]]);
    } else {
      assert piece + p == piece;
    }
  }

  lemma SegmentsOfPiece(p: string)
    requires '/' !in p
    ensures Segments(p) == Keep(p)
  {
    SegmentsAfterNoSeparator(p, "");
    assert "" + p == p;
  }

  /** Joining with a separator concatenates the component lists. */
  lemma {:induction false} SegmentsAfterJoined(a: string, b: string, piece: string)
    requires '/' !in piece
    ensures SegmentsAfter(a + "/" + b, piece) == SegmentsAfter(a, piece) + SegmentsAfter(b, "")
  {
    var s := a + "/" + b;
    if a == [] {
      assert s[1..] == b;
    } else {
      assert s[0] == a[0];
      assert s[1..] == a[1..] + "/" + b;
      if a[0] == '/' {
        SegmentsAfterJoined(a[1..], b, "");
      } else {
        SegmentsAfterJoined(a[1..], b, piece + [a[0]]);
      }
    }
  }

  lemma {:induction false} SegmentsOfJoined(a: string, b: string)
    ensures Segments(a + "/" + b) == Segments(a) + Segments(b)
  {
    SegmentsAfterJoined(a, b, "");
  }

  /** Pushing a relative path appends its components to those of the buffer. */
  lemma {:induction false} SegmentsOfRelativePush(base: string, p: string)
    requires !IsAbsolute(p)
    ensures base <= Pushed(base, p)
    ensures Segments(Pushed(base, p)) == Segments(base) + Segments(p)
  {
    if base == [] {
      assert Pushed(base, p) == p;
    } else if !EndsWith(base, '/') {
      SegmentsOfJoined(base, p);
    } else {
      SegmentsOfSlashEndedPush(base, p);
    }
  }

  lemma {:induction false} SegmentsOfSlashEndedPush(base: string, p: string)
    requires !IsAbsolute(p) && EndsWith(base, '/')
    ensures Segments(Pushed(base, p)) == Segments(base) + Segments(p)
  {
    var a := base[..|base| - 1];
    assert Pushed(base, p) == base + p;
    assert base == a + "/" + "";
    assert base + p == a + "/" + p;
    SegmentsOfJoined(a, "");
    SegmentsOfJoined(a, p);
  }

  /** `Path::file_name`: the last component, unless there is none or it is `..`. */
  function FileName(p: string): (r: Option<string>)
    ensures r.Some? ==> r.value != "" && r.value != "." && r.value != ".." && '/' !in r.value
    ensures r.Some? ==> Segments(p) != [] && r.value == Segments(p)[|Segments(p)| - 1]
    ensures r.None? <==> Segments(p) == [] || Segments(p)[|Segments(p)| - 1] == ".."
  {
    var segs := Segments(p);
    if segs == [] || segs[|segs| - 1] == ".." then None else Some(segs[|segs| - 1])
  }

  /**
   * `Path::extension` on a file name, after Rust's `rsplit_file_at_dot`:
   * the text after the last `.`, unless the name is `..`, has no `.`,
   * or its only `.` is leading.
   */
  function NameExtension(name: string): (r: Option<string>)
    ensures r.Some? ==> 0 < |name| - |r.value| - 1 && name[|name| - |r.value| - 1] == '.'
    ensures r.Some? ==> r.value == name[|name| - |r.value|..] && '.' !in r.value
    ensures r.None? <==> name == ".." || name == [] || '.' !in name[1..]
  {
    if name == ".." then None
    else match LastIndexOf(name, '.')
      case None => None
      case Some(k) => if k == 0 then None else Some(name[k + 1..])
  }

  /** `Path::extension`: the extension of the final component. */
  function Extension(p: string): (r: Option<string>)
    ensures FileName(p).None? ==> r.None?
    ensures r.Some? ==> FileName(p).Some? && NameExtension(FileName(p).value) == r
    ensures r.None? <==> FileName(p).None? || NameExtension(FileName(p).value).None?
  {
    match FileName(p)
    case None => None
    case Some(name) => NameExtension(name)
  }

  /** A file name that ends in `.html` and has at least one character before the dot. */
  predicate HtmlNamed(name: string) {
    |name| > 5 && name[|name| - 5..] == ".html"
  }

  /** A file name has extension exactly `html` iff it is `HtmlNamed` (the comparison is case-sensitive). */
  lemma NameExtensionIsHtml(name: string)
    ensures NameExtension(name) == Some("html") <==> HtmlNamed(name)
  {
    if NameExtension(name) == Some("html") {
      var k := LastIndexOf(name, '.').value;
      assert name[k + 1..] == "html";
      assert name[|name| - 5..] == [name[k]] + name[k + 1..];
    }
    if HtmlNamed(name) {
      var n := |name|;
      assert name[n - 4..] == "html";
      LastIndexOfLast(name, '.', n - 5);
    }
  }

  /** `path.extension() == Some("html")` exactly when the file name is `HtmlNamed`. */
  lemma ExtensionIsHtml(p: string)
    ensures Extension(p) == Some("html") <==> FileName(p).Some? && HtmlNamed(FileName(p).value)
  {
    if FileName(p).Some? {
      NameExtensionIsHtml(FileName(p).value);
    }
  }

  /**
   * Lexical resolution of a component list: each `..` cancels the name
   * before it; a `..` with no name before it is kept.
   */
  function Normalize(segs: seq<string>): seq<string> {
    if segs == [] then []
    else
      var rest := Normalize(segs[..|segs| - 1]);
      var last := segs[|segs| - 1];
      if last == ".." && rest != [] && rest[|rest| - 1] != ".." then rest[..|rest| - 1]
      else rest + [last]
  }

  /** Components with no `..` among them survive resolution unchanged. */
  lemma {:induction false} NormalizeAppendPlain(xs: seq<string>, ys: seq<string>)
    requires forall k :: 0 <= k < |ys| ==> ys[k] != ".."
    ensures Normalize(xs + ys) == Normalize(xs) + ys
    decreases |ys|
  {
    if ys == [] {
      assert xs + ys == xs;
    } else {
      var ys' := ys[..|ys| - 1];
      assert (xs + ys)[..|xs + ys| - 1] == xs + ys';
      NormalizeAppendPlain(xs, ys');
    }
  }

  /** Every `..` that survives resolution comes before every name. */
  predicate ParentsLeading(segs: seq<string>) {
    forall i, j :: 0 <= i < j < |segs| && segs[j] == ".." ==> segs[i] == ".."
  }

  lemma {:induction false} NormalizeParentsLeading(segs: seq<string>)
    ensures ParentsLeading(Normalize(segs))
    decreases |segs|
  {
    if segs != [] {
      var rest := Normalize(segs[..|segs| - 1]);
      NormalizeParentsLeading(segs[..|segs| - 1]);
      var last := segs[|segs| - 1];
      if !(last == ".." && rest != [] && rest[|rest| - 1] != "..") {
        var r := rest + [last];
        forall i, j | 0 <= i < j < |r| && r[j] == ".." ensures r[i] == ".." {
          if j == |rest| {
            assert rest[|rest| - 1] == "..";
            assert i < |rest| - 1 ==> rest[i] == "..";
          } else {
            assert r[j] == rest[j];
          }
        }
      }
    }
  }

  /** On an absolute path a `..` at the root stays at the root: leading `..` components are dropped. */
  function DropParents(segs: seq<string>): (r: seq<string>)
    ensures |r| <= |segs|
    ensures forall k :: 0 <= k < |segs| - |r| ==> segs[k] == ".."
    ensures r != [] ==> r[0] != ".."
  {
    if segs != [] && segs[0] == ".." then DropParents(segs[1..]) else segs
  }

  /** Components with no `..` among them pass through the dropping unchanged. */
  lemma {:induction false} DropParentsAppendPlain(xs: seq<string>, ys: seq<string>)
    requires forall k :: 0 <= k < |ys| ==> ys[k] != ".."
    ensures DropParents(xs + ys) == DropParents(xs) + ys
  {
    if xs == [] {
      assert xs + ys == ys;
    } else if xs[0] == ".." {
      assert (xs + ys)[1..] == xs[1..] + ys;
      DropParentsAppendPlain(xs[1..], ys);
    }
  }

  /** A list that ends in a name keeps that name last after the root. */
  lemma {:induction false} DropParentsOfLast(n: seq<string>)
    requires n != [] && n[|n| - 1] != ".."
    ensures DropParents(n) == DropParents(n[..|n| - 1]) + [n[|n| - 1]]
  {
    assert n[..|n| - 1] + [n[|n| - 1]] == n;
    DropParentsAppendPlain(n[..|n| - 1], [n[|n| - 1]]);
  }

  /** A list of leading `..` that ends in `..` (or is empty) is all `..`, so nothing of it is left. */
  lemma {:induction false} ParentEndingDropsAll(segs: seq<string>)
    requires ParentsLeading(segs)
    ensures segs == [] || segs[|segs| - 1] == ".." ==> DropParents(segs) == []
  {
    if segs != [] && segs[|segs| - 1] == ".." {
      assert |segs| > 1 ==> segs[0] == "..";
      var tail := segs[1..];
      assert ParentsLeading(tail) by {
        forall i, j | 0 <= i < j < |tail| && tail[j] == ".." ensures tail[i] == ".." {
          assert segs[j + 1] == "..";
        }
      }
      assert tail != [] ==> tail[|tail| - 1] == "..";
      ParentEndingDropsAll(tail);
    }
  }

  /**
   * A resolved list that is empty or ends in `..` is all `..`, so nothing
   * of it is left after the root: one with something left ends in a name.
   */
  lemma {:induction false} NormalizedParentEndingDropsAll(xs: seq<string>)
    ensures var n := Normalize(xs); DropParents(n) != [] ==> n != [] && n[|n| - 1] != ".."
  {
    NormalizeParentsLeading(xs);
    ParentEndingDropsAll(Normalize(xs));
  }

  /** A list of `..` only is dropped whole. */
  lemma {:induction false} AllParentsDropped(segs: seq<string>)
    requires forall k :: 0 <= k < |segs| ==> segs[k] == ".."
    ensures DropParents(segs) == []
  {
    if segs != [] {
      AllParentsDropped(segs[1..]);
    }
  }

  /** A `..` cancels the last resolved name, and the name after it takes that place. */
  lemma {:induction false} ParentCancelsLast(xs: seq<string>, name: string)
    requires name != ".."
    requires var n := Normalize(xs); n != [] && n[|n| - 1] != ".."
    ensures var n := Normalize(xs); Normalize(xs + ["..", name]) == n[..|n| - 1] + [name]
  {
    var all := xs + ["..", name];
    assert all[..|all| - 1] == xs + [".."];
    assert (xs + [".."])[..|xs|] == xs;
  }

  /** The components of `/../name` pushed onto an absolute directory that is not the root leave it. */
  lemma {:induction false} ParentFromAbsolute(xs: seq<string>, name: string)
    requires name != ".."
    requires var d := DropParents(Normalize(xs)); d != [] && d[|d| - 1] != name
    ensures !(DropParents(Normalize(xs)) <= DropParents(Normalize(xs + ["..", name])))
  {
    var n, q := Normalize(xs), Normalize(xs + ["..", name]);
    NormalizedParentEndingDropsAll(xs);
    ParentCancelsLast(xs, name);
    assert q == n[..|n| - 1] + [name];
    ReplacedLastEscapes(n, q, name);
  }

  /** A list whose last name is replaced by another no longer extends it after the root. */
  lemma {:induction false} ReplacedLastEscapes(n: seq<string>, q: seq<string>, name: string)
    requires name != ".." && n != [] && n[|n| - 1] != ".." && q == n[..|n| - 1] + [name]
    requires var d := DropParents(n); d != [] && d[|d| - 1] != name
    ensures !(DropParents(n) <= DropParents(q))
  {
    var m, last := n[..|n| - 1], n[|n| - 1];
    DropParentsOfLast(n);
    DropParentsAppendPlain(m, [name]);
    NotPrefixAtLast(DropParents(m), last, name);
  }

  lemma NotPrefixAtLast(d: seq<string>, last: string, name: string)
    requires last != name
    ensures !(d + [last] <= d + [name])
  {
    assert (d + [last])[|d|] == last;
    assert (d + [name])[|d|] == name;
  }

  /** Below a list that resolves to the root, `..` and a name resolve to that name alone. */
  lemma {:induction false} RootParentSegments(xs: seq<string>, name: string)
    requires name != ".." && DropParents(Normalize(xs)) == []
    ensures DropParents(Normalize(xs + ["..", name])) == [name]
  {
    ParentNameAtRootKept(xs, name);
    ParentsThenNameDropped(Normalize(xs), name);
  }

  lemma {:induction false} ParentNameAtRootKept(xs: seq<string>, name: string)
    requires name != ".." && DropParents(Normalize(xs)) == []
    ensures Normalize(xs + ["..", name]) == Normalize(xs) + ["..", name]
  {
    assert xs + ["..", name] == (xs + [".."]) + [name];
    NormalizeAppendPlain(xs + [".."], [name]);
    ParentAtRootKept(xs);
    assert (Normalize(xs) + [".."]) + [name] == Normalize(xs) + ["..", name];
  }

  lemma {:induction false} ParentsThenNameDropped(n: seq<string>, name: string)
    requires name != ".." && forall k :: 0 <= k < |n| ==> n[k] == ".."
    ensures DropParents(n + ["..", name]) == [name]
  {
    AllParentsDropped(n + [".."]);
    DropParentsAppendPlain(n + [".."], [name]);
    assert (n + [".."]) + [name] == n + ["..", name];
  }

  /** A `..` after a list that resolves to the root has nothing to cancel and is kept. */
  lemma {:induction false} ParentAtRootKept(xs: seq<string>)
    requires DropParents(Normalize(xs)) == []
    ensures Normalize(xs + [".."]) == Normalize(xs) + [".."]
  {
    assert (xs + [".."])[..|xs|] == xs;
  }

  /** The components of `/../name` pushed onto a relative directory leave it. */
  lemma {:induction false} ParentFromRelative(xs: seq<string>, name: string)
    requires name != ".."
    requires var d := Normalize(xs); d == [] || d[|d| - 1] != name
    ensures var all := xs + ["..", name]; var d, q := Normalize(xs), Normalize(all);
      !(d <= q && forall k :: |d| <= k < |q| ==> q[k] != "..")
  {
    var dir := Normalize(xs);
    var all := xs + ["..", name];
    assert all[..|all| - 1] == xs + [".."];
    assert (xs + [".."])[..|xs|] == xs;
    if dir != [] && dir[|dir| - 1] != ".." {
      assert Normalize(xs + [".."]) == dir[..|dir| - 1];
      assert Normalize(all) == dir[..|dir| - 1] + [name];
      assert Normalize(all)[|dir| - 1] != dir[|dir| - 1];
    } else {
      assert Normalize(xs + [".."]) == dir + [".."];
      assert Normalize(all) == dir + ["..", name];
      assert Normalize(all)[|dir|] == "..";
    }
  }

  /**
   * The components a path resolves to, lexically: each `..` cancels the
   * name before it; on an absolute path a `..` with nothing before it
   * stays at the root, on a relative one it is kept.
   */
  function Resolve(p: string): (r: seq<string>)
    ensures IsAbsolute(p) ==> (r != [] ==> r[0] != "..")
  {
    var n := Normalize(Segments(p));
    if IsAbsolute(p) then DropParents(n) else n
  }

  /** A path whose resolved components are the directory's followed by names only lies within it. */
  lemma WithinByNames(dir: string, p: string, ys: seq<string>)
    requires IsAbsolute(dir) == IsAbsolute(p) && Resolve(p) == Resolve(dir) + ys
    requires forall k :: 0 <= k < |ys| ==> ys[k] != ".."
    ensures LexicallyWithin(dir, p)
  {
    var d := Resolve(dir);
    forall k | |d| <= k < |d + ys| ensures (d + ys)[k] != ".." {
      assert (d + ys)[k] == ys[k - |d|];
    }
  }

  /**
   * `p` resolves, lexically, to `dir` or to something under it: both are
   * absolute or both relative, `p`'s resolved components start with
   * `dir`'s, and none of the components that follow is a `..` climbing
   * back out (a relative path keeps a `..` where nothing is left to
   * cancel, as below `.`).
   */
  predicate LexicallyWithin(dir: string, p: string) {
    var d, q := Resolve(dir), Resolve(p);
    IsAbsolute(dir) == IsAbsolute(p) && d <= q && forall k :: |d| <= k < |q| ==> q[k] != ".."
  }
}
