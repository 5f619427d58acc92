/** The three functions of Python's os.path (POSIX flavour) that the two scripts use on strings. */
module PosixPath {

  /** str.rfind(c): the index of the last occurrence of c, or -1. */
  function LastIndex(s: string, c: char): (r: int)
    ensures -1 <= r < |s|
    ensures r >= 0 ==> s[r] == c
    ensures forall k :: r < k < |s| ==> s[k] != c
  {
    if s == [] then -1
    else if s[|s| - 1] == c then |s| - 1
    else LastIndex(s[..|s| - 1], c)
  }

  predicate AllChar(s: string, c: char) {
    forall k :: 0 <= k < |s| ==> s[k] == c
  }

  /** str.rstrip(c) for one character c. */
  function TrimRightChar(s: string, c: char): (r: string)
    ensures |r| <= |s| && r == s[..|r|] && AllChar(s[|r|..], c)
    ensures r == [] || r[|r| - 1] != c
  {
    if s != [] && s[|s| - 1] == c then
      var r := TrimRightChar(s[..|s| - 1], c);
      assert s[|r|..] == s[..|s| - 1][|r|..] + [c];
      r
    else s
  }

  /** os.path.join(a, b): an absolute b replaces a; otherwise one '/' goes between them if a needs it. */
  function Join(a: string, b: string): (r: string)
  {
    if b != [] && b[0] == '/' then b
    else if a == [] || a[|a| - 1] == '/' then a + b
    else a + "/" + b
  }

  /** os.path.dirname(p): everything before the final component, without its trailing slashes
      unless it consists of slashes only. */
  function Dirname(p: string): (r: string)
    ensures |r| <= |p| && r == p[..|r|]
    ensures exists k :: |r| <= k <= |p| && AllChar(p[|r|..k], '/') && '/' !in p[k..]
                     && (k == 0 || p[k - 1] == '/') && (AllChar(p[..k], '/') ==> |r| == k)
    ensures r == [] || AllChar(r, '/') || r[|r| - 1] != '/'
  {
    var i := LastIndex(p, '/') + 1;
    var head := p[..i];
    assert '/' !in p[i..];
    if head != [] && !AllChar(head, '/') then
      var r := TrimRightChar(head, '/');
      assert p[|r|..i] == head[|r|..];
      assert p[..i] == head;
      r
    else
      assert p[|head|..i] == [];
      head
  }

  /** The final path component of p (what follows its last '/') contains a '.' that follows
      some character other than '.'. */
  ghost predicate HasExtension(p: string) {
    exists i, j :: LastIndex(p, '/') < i < j < |p| && p[i] != '.' && p[j] == '.'
  }

  /** os.path.splitext(p): (root, ext) where ext runs from the last '.' of the final component,
      unless every character before that '.' in the component is itself a '.'. */
  function SplitExt(p: string): (r: (string, string))
  {
    var sepIndex := LastIndex(p, '/');
    var dotIndex := LastIndex(p, '.');
    if dotIndex > sepIndex && !AllChar(p[sepIndex + 1..dotIndex], '.') then
      (p[..dotIndex], p[dotIndex..])
    else
      (p, "")
  }

  /** splitext splits p into two pieces that concatenate back to p; the extension, when there is
      one, is a '.' followed by neither '.' nor '/'. */
  lemma SplitExtShape(p: string)
    ensures SplitExt(p).0 + SplitExt(p).1 == p
    ensures var ext := SplitExt(p).1;
      ext == [] || (ext[0] == '.' && forall k :: 0 < k < |ext| ==> ext[k] != '.' && ext[k] != '/')
  {
    var sepIndex := LastIndex(p, '/');
    var dotIndex := LastIndex(p, '.');
    var ext := SplitExt(p).1;
    if ext != [] {
      assert ext == p[dotIndex..];
      forall k | 0 < k < |ext| ensures ext[k] != '.' && ext[k] != '/' {
        assert ext[k] == p[dotIndex + k];
      }
    }
  }

  /** splitext finds an extension exactly when the final component has a non-leading dot. */
  lemma SplitExtFindsExtension(p: string)
    ensures SplitExt(p).1 != [] <==> HasExtension(p)
  {
    var sepIndex := LastIndex(p, '/');
    var dotIndex := LastIndex(p, '.');
    if SplitExt(p).1 != [] {
      var m := sepIndex + 1;
      var seg := p[m..dotIndex];
      var k :| 0 <= k < |seg| && seg[k] != '.';
      assert p[m + k] != '.';
    }
    if HasExtension(p) {
      var i, j :| sepIndex < i < j < |p| && p[i] != '.' && p[j] == '.';
      assert j <= dotIndex;
      assert p[sepIndex + 1..dotIndex][i - sepIndex - 1] == p[i];
    }
  }
}
