/** The string helpers and table lookups of src/utils.py, with the Python
    string operations they are written with (str.strip, str.rstrip,
    str.split, the `in` test) spelled out on sequences of characters. */
module Utils {
  import opened Types

  // ---------------------------------------------------------------------------
  // Python string primitives
  // ---------------------------------------------------------------------------

  /** The characters Python's str.isspace accepts, which str.strip() removes. */
  predicate IsSpace(c: char) {
    || c in {' ', '\t', '\n', '\r', '\U{0B}', '\U{0C}', '\U{1C}', '\U{1D}', '\U{1E}', '\U{1F}',
             '\U{85}', '\U{A0}', '\U{1680}', '\U{2028}', '\U{2029}', '\U{202F}', '\U{205F}', '\U{3000}'}
    || '\U{2000}' <= c <= '\U{200A}'
  }

  /** The test for one given character, as the argument of str.strip(chars). */
  function Is(x: char): char -> bool {
    (c: char) => c == x
  }

  /** s with its longest prefix of dropped characters removed (str.lstrip). */
  function TrimStart(s: string, drop: char -> bool): (r: string)
    ensures |r| <= |s| && r == s[|s| - |r|..]
    ensures forall i :: 0 <= i < |s| - |r| ==> drop(s[i])
    ensures r == [] || !drop(r[0])
  {
    if s != [] && drop(s[0]) then TrimStart(s[1..], drop) else s
  }

  /** s with its longest suffix of dropped characters removed (str.rstrip). */
  function TrimEnd(s: string, drop: char -> bool): (r: string)
    ensures r <= s
    ensures forall i :: |r| <= i < |s| ==> drop(s[i])
    ensures r == [] || !drop(r[|r| - 1])
  {
    if s != [] && drop(s[|s| - 1]) then TrimEnd(s[..|s| - 1], drop) else s
  }

  /** str.strip(chars): both ends trimmed. */
  function Trim(s: string, drop: char -> bool): string {
    TrimEnd(TrimStart(s, drop), drop)
  }

  /** str.strip() with no argument: surrounding whitespace removed. */
  function Strip(s: string): (r: string)
    ensures |r| <= |s| && Stripped(r)
  {
    Trim(s, IsSpace)
  }

  /** A prefix of the suffix of s from i is the slice of s from i. */
  lemma SliceOfSuffix(s: string, i: nat, r: string)
    requires i <= |s| && r <= s[i..]
    ensures r == s[i..i + |r|]
  {
  }

  /** Trimming removes exactly a run of dropped characters at each end and
      leaves neither end droppable. */
  lemma TrimSpec(s: string, drop: char -> bool) returns (i: nat, j: nat)
    ensures i <= j <= |s| && Trim(s, drop) == s[i..j]
    ensures forall k :: 0 <= k < i ==> drop(s[k])
    ensures forall k :: j <= k < |s| ==> drop(s[k])
    ensures i < j ==> !drop(s[i]) && !drop(s[j - 1])
  {
    var t := TrimStart(s, drop);
    i := |s| - |t|;
    var r := TrimEnd(t, drop);
    j := i + |r|;
    SliceOfSuffix(s, i, r);
    SuffixDropped(s, i, r, drop);
    if i < j {
      assert s[i] == r[0] && s[j - 1] == r[|r| - 1];
    }
  }

  /** What TrimEnd drops from the suffix of s from i is dropped from s after i + |r|. */
  lemma SuffixDropped(s: string, i: nat, r: string, drop: char -> bool)
    requires i <= |s| && r <= s[i..]
    requires forall k :: |r| <= k < |s[i..]| ==> drop(s[i..][k])
    ensures forall k :: i + |r| <= k < |s| ==> drop(s[k])
  {
    forall k | i + |r| <= k < |s| ensures drop(s[k]) {
      assert s[k] == s[i..][k - i];
    }
  }

  /** Trimming twice trims nothing more. */
  lemma TrimIdempotent(s: string, drop: char -> bool)
    ensures Trim(Trim(s, drop), drop) == Trim(s, drop)
  {
    var r := Trim(s, drop);
    if r != [] {
      assert !drop(r[0]);
      assert TrimStart(r, drop) == r;
    }
  }

  /** The first index of `c` in `s`, or None when `c` does not occur. */
  function IndexOf(s: string, c: char): (r: Option<nat>)
    ensures r.None? <==> c !in s
    ensures r.Some? ==> r.value < |s| && s[r.value] == c && c !in s[..r.value]
  {
    if s == [] then None
    else if s[0] == c then Some(0)
    else match IndexOf(s[1..], c)
      case None => None
      case Some(i) => assert s[1..][..i] == s[1..i + 1]; Some(i + 1)
  }

  /** Does `sep` occur in `s` at index `i`? */
  predicate OccursAt(s: string, sep: string, i: nat) {
    i + |sep| <= |s| && s[i..i + |sep|] == sep
  }

  /** The first index at or after `from` where `sep` occurs in `s`, or None. */
  function FindFrom(s: string, sep: string, from: nat): (r: Option<nat>)
    ensures r.None? <==> forall i: nat :: from <= i ==> !OccursAt(s, sep, i)
    ensures r.Some? ==> from <= r.value && OccursAt(s, sep, r.value) &&
                        forall i: nat :: from <= i < r.value ==> !OccursAt(s, sep, i)
    decreases |s| - from
  {
    if from + |sep| > |s| then None
    else if s[from..from + |sep|] == sep then assert OccursAt(s, sep, from); Some(from)
    else FindFrom(s, sep, from + 1)
  }

  /** str.find(sep) as an option: the first occurrence of `sep`; `sep in s` is its Some?. */
  function Find(s: string, sep: string): (r: Option<nat>)
    ensures r.None? <==> forall i: nat :: !OccursAt(s, sep, i)
    ensures r.Some? ==> OccursAt(s, sep, r.value) && forall i: nat :: i < r.value ==> !OccursAt(s, sep, i)
  {
    FindFrom(s, sep, 0)
  }

  /** For a one-character separator, occurring is being an element. */
  lemma FindChar(s: string, c: char)
    ensures Find(s, [c]).Some? <==> c in s
  {
    if c in s {
      var i :| 0 <= i < |s| && s[i] == c;
      assert OccursAt(s, [c], i);
    }
    if Find(s, [c]).Some? {
      var i := Find(s, [c]).value;
      assert s[i..i + 1][0] == s[i];
    }
  }

  /** str.split(c) for a one-character separator: the pieces between the occurrences of `c`. */
  function SplitOn(s: string, c: char): (r: seq<string>)
    ensures |r| >= 1
    ensures forall k :: 0 <= k < |r| ==> c !in r[k]
    decreases |s|
  {
    match IndexOf(s, c)
    case None => [s]
    case Some(i) => [s[..i]] + SplitOn(s[i + 1..], c)
  }

  /** str.join with a one-character separator. */
  function Join(parts: seq<string>, c: char): string
    decreases |parts|
  {
    if parts == [] then [] else if |parts| == 1 then parts[0] else parts[0] + [c] + Join(parts[1..], c)
  }

  /** Splitting loses nothing: joining the pieces gives the string back. */
  lemma {:induction false} JoinSplit(s: string, c: char)
    ensures Join(SplitOn(s, c), c) == s
    decreases |s|
  {
    match IndexOf(s, c)
    case None =>
    case Some(i) =>
      var rest := SplitOn(s[i + 1..], c);
      JoinSplit(s[i + 1..], c);
      assert SplitOn(s, c) == [s[..i]] + rest;
      assert ([s[..i]] + rest)[1..] == rest;
      assert Join([s[..i]] + rest, c) == s[..i] + [c] + Join(rest, c);
      assert s == s[..i] + [c] + s[i + 1..];
  }

  /** The first piece of str.split(c) is everything before the first `c`. */
  lemma SplitOnFirst(s: string, c: char)
    ensures SplitOn(s, c)[0] == if c in s then s[..IndexOf(s, c).value] else s
  {
  }

  /** Every piece stripped. */
  function StripAll(pieces: seq<string>): (r: seq<string>)
    ensures |r| == |pieces| && forall k :: 0 <= k < |r| ==> r[k] == Strip(pieces[k])
    decreases |pieces|
  {
    if pieces == [] then [] else [Strip(pieces[0])] + StripAll(pieces[1..])
  }

  /** The first index of `c` is the one before which `c` does not occur. */
  lemma IndexOfAt(s: string, c: char, p: nat)
    requires p < |s| && s[p] == c && c !in s[..p]
    ensures IndexOf(s, c) == Some(p)
  {
  }

  /** Splitting at the first index of `c`, with the text before and after it
      given. */
  lemma SplitOnAt(s: string, c: char, p: nat, head: string, tail: string)
    requires IndexOf(s, c) == Some(p)
    requires head == s[..p] && tail == s[p + 1..]
    ensures SplitOn(s, c) == [head] + SplitOn(tail, c)
  {
  }

  /** Two sequences with the same tail differ at most at their heads. */
  lemma SameTail<T>(a: seq<T>, b: seq<T>, x: T, y: T, rest: seq<T>)
    requires a == [x] + rest && b == [y] + rest
    ensures |a| == |b| && a[0] == x && b[0] == y && forall k :: 1 <= k < |a| ==> a[k] == b[k]
  {
  }

  /** Text without `c` in front of a string only extends its first piece. */
  lemma SplitOnPrepend(u: string, x: string, c: char)
    requires c !in u
    ensures var pieces, r := SplitOn(x, c), SplitOn(u + x, c);
            |r| == |pieces| && r[0] == u + pieces[0] &&
            forall k :: 1 <= k < |r| ==> r[k] == pieces[k]
  {
    match IndexOf(x, c)
    case None =>
      assert c !in u + x;
    case Some(q) =>
      SplitOnPrependAt(u, x, c, q);
      SameTail(SplitOn(u + x, c), SplitOn(x, c), u + x[..q], x[..q], SplitOn(x[q + 1..], c));
  }

  /** The split of u + x, when `c` is not in u and first occurs in x at q. */
  lemma SplitOnPrependAt(u: string, x: string, c: char, q: nat)
    requires c !in u && IndexOf(x, c) == Some(q)
    ensures SplitOn(u + x, c) == [u + x[..q]] + SplitOn(x[q + 1..], c)
    ensures SplitOn(x, c) == [x[..q]] + SplitOn(x[q + 1..], c)
  {
    var y := u + x;
    assert y[..|u| + q] == u + x[..q];
    IndexOfAt(y, c, |u| + q);
    assert y[|u| + q + 1..] == x[q + 1..];
    SplitOnAt(y, c, |u| + q, u + x[..q], x[q + 1..]);
    SplitOnAt(x, c, q, x[..q], x[q + 1..]);
  }

  /** Text without `c` after a string only extends its last piece. */
  lemma {:induction false} SplitOnAppend(x: string, w: string, c: char)
    requires c !in w
    ensures var pieces, r := SplitOn(x, c), SplitOn(x + w, c);
            |r| == |pieces| && r[|r| - 1] == pieces[|r| - 1] + w &&
            forall k :: 0 <= k < |r| - 1 ==> r[k] == pieces[k]
    decreases |x|
  {
    match IndexOf(x, c)
    case None =>
      assert c !in x + w;
    case Some(p) =>
      SplitOnAppendAt(x, w, c, p);
      SplitOnAppend(x[p + 1..], w, c);
      ExtendLastCons(SplitOn(x, c), SplitOn(x + w, c), x[..p], SplitOn(x[p + 1..], c), SplitOn(x[p + 1..] + w, c), w);
  }

  /** The split of x + w when `c` first occurs in x at p. */
  lemma SplitOnAppendAt(x: string, w: string, c: char, p: nat)
    requires IndexOf(x, c) == Some(p)
    ensures SplitOn(x + w, c) == [x[..p]] + SplitOn(x[p + 1..] + w, c)
    ensures SplitOn(x, c) == [x[..p]] + SplitOn(x[p + 1..], c)
  {
    var y := x + w;
    assert y[..p] == x[..p];
    IndexOfAt(y, c, p);
    assert y[p + 1..] == x[p + 1..] + w;
    SplitOnAt(y, c, p, x[..p], x[p + 1..] + w);
    SplitOnAt(x, c, p, x[..p], x[p + 1..]);
  }

  /** Extending the last piece commutes with putting a piece in front. */
  lemma ExtendLastCons(pieces: seq<string>, r: seq<string>, head: string,
                       pieces': seq<string>, r': seq<string>, w: string)
    requires pieces == [head] + pieces' && r == [head] + r'
    requires |r'| == |pieces'| >= 1 && r'[|r'| - 1] == pieces'[|r'| - 1] + w
    requires forall k :: 0 <= k < |r'| - 1 ==> r'[k] == pieces'[k]
    ensures |r| == |pieces| && r[|r| - 1] == pieces[|r| - 1] + w
    ensures forall k :: 0 <= k < |r| - 1 ==> r[k] == pieces[k]
  {
    forall k | 0 <= k < |r| - 1 ensures r[k] == pieces[k] {
      if k > 0 {
        assert r[k] == r'[k - 1] && pieces[k] == pieces'[k - 1];
      }
    }
  }

  /** One piece, extended by dropped text `w` when it is the last and then by
      `u` when it is the first, trims as before. */
  lemma ExtendedPieceTrimmed(piece: string, middle: string, r: string, u: string, w: string,
                             drop: char -> bool, first: bool, last: bool)
    requires forall k :: 0 <= k < |u| ==> drop(u[k])
    requires forall k :: 0 <= k < |w| ==> drop(w[k])
    requires middle == if last then piece + w else piece
    requires r == if first then u + middle else middle
    ensures Trim(r, drop) == Trim(piece, drop)
  {
    var u' := if first then u else [];
    var w' := if last then w else [];
    assert r == u' + piece + w';
    TrimAround(u', piece, w', drop);
  }

  /** Pieces extended by dropped text, `w` on the last (giving `middle`) and
      then `u` on the first (giving `r`), trim as before. */
  lemma ExtendedPiecesTrimmed(pieces: seq<string>, middle: seq<string>, r: seq<string>,
                              u: string, w: string, drop: char -> bool)
    requires |pieces| >= 1
    requires forall k :: 0 <= k < |u| ==> drop(u[k])
    requires forall k :: 0 <= k < |w| ==> drop(w[k])
    requires |middle| == |pieces| && middle[|middle| - 1] == pieces[|middle| - 1] + w &&
             forall k :: 0 <= k < |middle| - 1 ==> middle[k] == pieces[k]
    requires |r| == |middle| && r[0] == u + middle[0] &&
             forall k :: 1 <= k < |r| ==> r[k] == middle[k]
    ensures forall k :: 0 <= k < |r| ==> Trim(r[k], drop) == Trim(pieces[k], drop)
  {
    var n := |r|;
    forall k | 0 <= k < n ensures Trim(r[k], drop) == Trim(pieces[k], drop) {
      ExtendedPieceTrimmed(pieces[k], middle[k], r[k], u, w, drop, k == 0, k == n - 1);
    }
  }

  /** Dropped characters around a string on which `c` is not dropped leave
      every trimmed piece of its split on `c` as it was. */
  lemma SplitAroundTrimmed(u: string, x: string, w: string, c: char, drop: char -> bool)
    requires !drop(c)
    requires forall k :: 0 <= k < |u| ==> drop(u[k])
    requires forall k :: 0 <= k < |w| ==> drop(w[k])
    ensures var pieces, r := SplitOn(x, c), SplitOn(u + (x + w), c);
            |r| == |pieces| && forall k :: 0 <= k < |r| ==> Trim(r[k], drop) == Trim(pieces[k], drop)
  {
    assert c !in u && c !in w;
    SplitOnAppend(x, w, c);
    SplitOnPrepend(u, x + w, c);
    ExtendedPiecesTrimmed(SplitOn(x, c), SplitOn(x + w, c), SplitOn(u + (x + w), c), u, w, drop);
  }

  /** Leading and trailing whitespace change no stripped piece of a split on a
      non-space character. */
  lemma SplitAround(u: string, x: string, w: string, c: char)
    requires !IsSpace(c)
    requires forall k :: 0 <= k < |u| ==> IsSpace(u[k])
    requires forall k :: 0 <= k < |w| ==> IsSpace(w[k])
    ensures StripAll(SplitOn(u + (x + w), c)) == StripAll(SplitOn(x, c))
  {
    SplitAroundTrimmed(u, x, w, c, IsSpace);
  }

  /** A sequence is its three slices at i and j put back together. */
  lemma SliceThree<T>(s: seq<T>, i: nat, j: nat)
    requires i <= j <= |s|
    ensures s == s[..i] + (s[i..j] + s[j..])
  {
  }

  /** Splitting the stripped string on a non-space character gives the same
      stripped pieces as splitting the string itself. */
  lemma SplitStripped(s: string, c: char)
    requires !IsSpace(c)
    ensures StripAll(SplitOn(Strip(s), c)) == StripAll(SplitOn(s, c))
  {
    var i, j := TrimSpec(s, IsSpace);
    SliceThree(s, i, j);
    SplitAround(s[..i], s[i..j], s[j..], c);
  }

  /** For a one-character separator, str.find and the first index agree. */
  lemma FindCharIndex(s: string, c: char)
    ensures Find(s, [c]) == IndexOf(s, c)
  {
    FindChar(s, c);
    if IndexOf(s, c).Some? {
      var i := IndexOf(s, c).value;
      assert s[i..i + 1] == [c];
      assert OccursAt(s, [c], i);
      var k := Find(s, [c]).value;
      assert s[k..k + 1][0] == s[k];
    }
  }

  /** Neither end of s is whitespace: what str.strip() leaves. */
  predicate Stripped(s: string) {
    s == [] || (!IsSpace(s[0]) && !IsSpace(s[|s| - 1]))
  }

  /** A string is stripped exactly when str.strip() leaves it as it is. */
  lemma StrippedIff(s: string)
    ensures Stripped(s) <==> Strip(s) == s
    ensures Stripped(Strip(s))
  {
    var i, j := TrimSpec(s, IsSpace);
    if Stripped(s) {
      TrimNothing(s, IsSpace);
    }
  }

  /** Trimming a string whose ends are not dropped changes nothing. */
  lemma TrimNothing(s: string, drop: char -> bool)
    requires s == [] || (!drop(s[0]) && !drop(s[|s| - 1]))
    ensures Trim(s, drop) == s
  {
    assert TrimStart(s, drop) == s;
  }

  /** Dropped characters in front of a string are all trimmed away. */
  lemma {:induction false} TrimStartDropped(u: string, x: string, drop: char -> bool)
    requires forall k :: 0 <= k < |u| ==> drop(u[k])
    ensures TrimStart(u + x, drop) == TrimStart(x, drop)
    decreases |u|
  {
    if u == [] {
      assert u + x == x;
    } else {
      assert (u + x)[0] == u[0] && (u + x)[1..] == u[1..] + x;
      TrimStartDropped(u[1..], x, drop);
    }
  }

  /** Dropped characters after a string are all trimmed away. */
  lemma {:induction false} TrimEndDropped(x: string, w: string, drop: char -> bool)
    requires forall k :: 0 <= k < |w| ==> drop(w[k])
    ensures TrimEnd(x + w, drop) == TrimEnd(x, drop)
    decreases |w|
  {
    if w == [] {
      assert x + w == x;
    } else {
      var n := |x + w|;
      assert (x + w)[n - 1] == w[|w| - 1] && (x + w)[..n - 1] == x + w[..|w| - 1];
      TrimEndDropped(x, w[..|w| - 1], drop);
    }
  }

  /** Trimming the front of s + w trims s, and w too when s is all dropped. */
  lemma {:induction false} TrimStartAppend(x: string, w: string, drop: char -> bool)
    ensures TrimStart(x + w, drop) == if TrimStart(x, drop) != [] then TrimStart(x, drop) + w else TrimStart(w, drop)
    decreases |x|
  {
    if x == [] {
      assert x + w == w;
    } else {
      assert (x + w)[0] == x[0] && (x + w)[1..] == x[1..] + w;
      TrimStartAppend(x[1..], w, drop);
    }
  }

  /** Dropped characters around a string do not change its trim. */
  lemma TrimAround(u: string, x: string, w: string, drop: char -> bool)
    requires forall k :: 0 <= k < |u| ==> drop(u[k])
    requires forall k :: 0 <= k < |w| ==> drop(w[k])
    ensures Trim(u + x + w, drop) == Trim(x, drop)
  {
    assert u + x + w == u + (x + w);
    TrimStartDropped(u, x + w, drop);
    TrimStartAppend(x, w, drop);
    var t := TrimStart(x, drop);
    if t != [] {
      TrimEndDropped(t, w, drop);
    }
  }

  /** Trimming only removes characters. */
  lemma TrimKeepsOut(s: string, drop: char -> bool, c: char)
    requires c !in s
    ensures c !in Trim(s, drop)
  {
    var i, j := TrimSpec(s, drop);
  }

  /** A character that is neither the separator nor in any piece is not in the join. */
  lemma {:induction false} JoinKeepsOut(parts: seq<string>, sep: char, c: char)
    requires c != sep && forall k :: 0 <= k < |parts| ==> c !in parts[k]
    ensures c !in Join(parts, sep)
    decreases |parts|
  {
    if |parts| > 1 {
      JoinKeepsOut(parts[1..], sep, c);
    }
  }

  /** The join of non-empty pieces begins with the first piece's first character
      and ends with the last piece's last character. */
  lemma {:induction false} JoinEnds(parts: seq<string>, sep: char)
    requires parts != [] && forall k :: 0 <= k < |parts| ==> parts[k] != []
    ensures var j := Join(parts, sep);
            j != [] && j[0] == parts[0][0] && j[|j| - 1] == parts[|parts| - 1][|parts[|parts| - 1]| - 1]
    decreases |parts|
  {
    if |parts| > 1 {
      JoinEnds(parts[1..], sep);
    }
  }

  /** Splitting the join of pieces without the separator gives the pieces back. */
  lemma {:induction false} SplitJoin(parts: seq<string>, c: char)
    requires parts != [] && forall k :: 0 <= k < |parts| ==> c !in parts[k]
    ensures SplitOn(Join(parts, c), c) == parts
    decreases |parts|
  {
    var s := Join(parts, c);
    if |parts| == 1 {
      assert IndexOf(s, c).None?;
    } else {
      var rest := Join(parts[1..], c);
      assert s == parts[0] + [c] + rest;
      assert s[|parts[0]|] == c;
      assert s[..|parts[0]|] == parts[0];
      IndexOfAt(s, c, |parts[0]|);
      assert s[|parts[0]| + 1..] == rest;
      SplitOnAt(s, c, |parts[0]|, parts[0], rest);
      SplitJoin(parts[1..], c);
      assert parts == [parts[0]] + parts[1..];
    }
  }

  // ---------------------------------------------------------------------------
  // The helpers of src/utils.py
  // ---------------------------------------------------------------------------

  /** strip_comment: the text before the first '#', stripped of surrounding whitespace. */
  function StripComment(line: string): (r: string)
    ensures '#' !in r
  {
    Strip(SplitOn(line, '#')[0])
  }

  /** strip_comment keeps the text before the first '#', trimmed. */
  lemma StripCommentSpec(line: string)
    ensures StripComment(line) == Strip(if '#' in line then line[..IndexOf(line, '#').value] else line)
  {
    SplitOnFirst(line, '#');
  }

  /** strip_comment of a comment-free line is that line, stripped; in
      particular strip_comment is idempotent. */
  lemma StripCommentIdempotent(line: string)
    ensures StripComment(StripComment(line)) == StripComment(line)
  {
    var r := StripComment(line);
    SplitOnFirst(r, '#');
    SplitOnFirst(line, '#');
    TrimIdempotent(SplitOn(line, '#')[0], IsSpace);
  }

  /** is_empty: the string has length 0. */
  function IsEmpty(s: string): (r: bool)
    ensures r <==> s == []
  {
    |s| == 0
  }

  /** With a one-character separator, split_once cuts at its first index. */
  lemma SplitOnceChar(s: string, c: char)
    requires c in s
    ensures var i := IndexOf(s, c).value;
            SplitOnce(s, [c]) == (Strip(s[..i]), Strip(s[i + 1..]))
  {
    FindCharIndex(s, c);
  }

  /** split_once: around the first `sep`, both sides stripped; the unsplit,
      unstripped string and "" when `sep` does not occur. Python refuses an
      empty separator. */
  function SplitOnce(s: string, sep: string): (r: (string, string))
    requires sep != []
    ensures Find(s, sep).None? ==> r == (s, [])
    ensures Find(s, sep).Some? ==> Stripped(r.0) && Stripped(r.1) && |r.0| + |sep| + |r.1| <= |s|
  {
    match Find(s, sep)
    case None => (s, [])
    case Some(i) =>
      StrippedIff(s[..i]);
      StrippedIff(s[i + |sep|..]);
      (Strip(s[..i]), Strip(s[i + |sep|..]))
  }

  /** What split_once means: when `sep` occurs, the string is left + sep + right
      with no `sep` in left + sep except at its end, and the halves are the
      stripped left and right; otherwise the string comes back untouched. */
  lemma SplitOnceSpec(s: string, sep: string) returns (left: string, right: string)
    requires sep != []
    ensures Find(s, sep).Some? ==>
              && s == left + sep + right
              && (forall i: nat :: i < |left| ==> !OccursAt(left + sep, sep, i))
              && SplitOnce(s, sep) == (Strip(left), Strip(right))
    ensures Find(s, sep).None? ==> SplitOnce(s, sep) == (s, [])
  {
    left, right := s, [];
    if Find(s, sep).Some? {
      var i := Find(s, sep).value;
      left, right := s[..i], s[i + |sep|..];
      assert s == left + sep + right;
      forall k: nat | k < |left| ensures !OccursAt(left + sep, sep, k) {
        assert !OccursAt(s, sep, k);
        assert (left + sep)[k..k + |sep|] == s[k..k + |sep|];
      }
    }
  }

  /** split_once on left + sep + right splits at the given separator when the
      separator's first character does not occur in `left`. */
  lemma SplitOnceAt(left: string, sep: string, right: string)
    requires sep != [] && sep[0] !in left
    ensures SplitOnce(left + sep + right, sep) == (Strip(left), Strip(right))
  {
    var s := left + sep + right;
    assert s[|left|..|left| + |sep|] == sep;
    assert OccursAt(s, sep, |left|);
    var i := Find(s, sep).value;
    assert s[..|left|] == left;
    assert s[|left| + |sep|..] == right;
  }

  /** extract_parentheses: the stripped text before the first '(' and the
      stripped text between it and the next '(' with trailing ')' removed;
      (stripped text, "") when there is no '('. */
  function ExtractParentheses(s: string): (r: (string, string))
    ensures Stripped(r.0) && Stripped(r.1)
    ensures '(' !in r.0 && '(' !in r.1
    ensures '(' !in s ==> r == (Strip(s), [])
    ensures '(' in s ==> r.0 == Strip(s[..IndexOf(s, '(').value])
    ensures '(' in s ==> var rest := s[IndexOf(s, '(').value + 1..];
                         r.1 == Strip(TrimEnd(if '(' in rest then rest[..IndexOf(rest, '(').value] else rest, Is(')')))
  {
    if '(' !in s then StrippedIff(s); (Strip(s), [])
    else
      var pieces := SplitOn(s, '(');
      SplitOnFirst(s, '(');
      SplitOnFirst(s[IndexOf(s, '(').value + 1..], '(');
      StrippedIff(pieces[0]);
      StrippedIff(TrimEnd(pieces[1], Is(')')));
      TrimKeepsOut(pieces[0], IsSpace, '(');
      TrimKeepsOut(TrimEnd(pieces[1], Is(')')), IsSpace, '(');
      (Strip(pieces[0]), Strip(TrimEnd(pieces[1], Is(')'))))
  }

  /** On "before (inside)" with no other parenthesis, extract_parentheses
      returns the stripped parts; with no '(' it returns the stripped text. */
  lemma ExtractParenthesesSpec(before: string, inside: string)
    requires '(' !in before && '(' !in inside && ')' !in inside
    ensures ExtractParentheses(before + "(" + inside + ")") == (Strip(before), Strip(inside))
    ensures ExtractParentheses(before) == (Strip(before), [])
  {
    var s := before + "(" + inside + ")";
    assert s[|before|] == '(';
    assert IndexOf(s, '(') == Some(|before|);
    var after := s[|before| + 1..];
    assert after == inside + ")";
    assert IndexOf(after, '(').None?;
    assert SplitOn(after, '(') == [after];
    assert s[..|before|] == before;
    assert SplitOn(s, '(') == [before, after];
    var t := TrimEnd(after, Is(')'));
    assert TrimEnd(inside, Is(')')) == inside by {
      assert inside == [] || !Is(')')(inside[|inside| - 1]);
    }
    assert after[..|after| - 1] == inside;
  }

  /** lookup_key: the symbol of the first mapping with the key, or None. */
  function LookupKey(mappings: seq<(string, string)>, key: string): Option<string>
    decreases |mappings|
  {
    if mappings == [] then None
    else if mappings[0].0 == key then Some(mappings[0].1)
    else LookupKey(mappings[1..], key)
  }

  /** LookupKey finds nothing exactly when no mapping has the key, and
      otherwise the symbol of the first mapping that has it. */
  lemma {:induction false} LookupKeySpec(mappings: seq<(string, string)>, key: string)
    ensures LookupKey(mappings, key).None? <==> forall i :: 0 <= i < |mappings| ==> mappings[i].0 != key
    ensures LookupKey(mappings, key).Some? ==>
              exists i :: 0 <= i < |mappings| && mappings[i] == (key, LookupKey(mappings, key).value) &&
                          forall j :: 0 <= j < i ==> mappings[j].0 != key
    decreases |mappings|
  {
    if mappings != [] && mappings[0].0 != key {
      LookupKeySpec(mappings[1..], key);
      if LookupKey(mappings, key).Some? {
        var v := LookupKey(mappings, key).value;
        var i :| 0 <= i < |mappings[1..]| && mappings[1..][i] == (key, v) &&
                 forall j :: 0 <= j < i ==> mappings[1..][j].0 != key;
        assert mappings[i + 1] == (key, v);
        assert forall j :: 0 <= j < i + 1 ==> mappings[j].0 != key by {
          forall j | 0 <= j < i + 1 ensures mappings[j].0 != key {
            if j > 0 { assert mappings[j] == mappings[1..][j - 1]; }
          }
        }
      } else {
        forall i | 0 <= i < |mappings| ensures mappings[i].0 != key {
          if i > 0 { assert mappings[i] == mappings[1..][i - 1]; }
        }
      }
    }
  }

  /** lookup_symbol: the symbol of the first alphabet entry with the token, or None. */
  function LookupSymbol(alphabet: seq<(string, Symbol)>, token: string): (r: Option<Symbol>)
    ensures r.None? <==> forall i :: 0 <= i < |alphabet| ==> alphabet[i].0 != token
    ensures r.Some? ==> exists i :: 0 <= i < |alphabet| && alphabet[i] == (token, r.value) &&
                                  forall j :: 0 <= j < i ==> alphabet[j].0 != token
  {
    if alphabet == [] then None
    else if alphabet[0].0 == token then Some(alphabet[0].1)
    else match LookupSymbol(alphabet[1..], token)
      case None => None
      case Some(v) =>
        ghost var i :| 0 <= i < |alphabet[1..]| && alphabet[1..][i] == (token, v) &&
                       forall j :: 0 <= j < i ==> alphabet[1..][j].0 != token;
        assert alphabet[i + 1] == (token, v);
        Some(v)
  }
}
