/**
 Folder paths as component sequences, and the string tests the source makes on them:
 a path covers itself and whatever starts with it and a slash.
 */
module FolderPaths {

  type Name = s: string | s != "" && '/' !in s witness "a"

  /** An absolute path below "/". */
  type Path = p: seq<Name> | p != [] witness ["a"]

  function Parent(p: Path): seq<Name> {
    p[..|p| - 1]
  }

  /** The path as text: a slash in front of every component. */
  function Render(p: seq<Name>): string {
    if p == [] then "" else "/" + p[0] + Render(p[1..])
  }

  /** The test on texts: the same path, or one that starts with it and a slash. */
  predicate Covers(q: Path, p: Path) {
    Render(p) == Render(q) || Render(q) + "/" <= Render(p)
  }

  /** The text test is the prefix relation on components. */
  lemma CoversIsPrefix(q: Path, p: Path)
    ensures Covers(q, p) <==> q <= p
  {
    ClosedPrefix(q, p);
    hide Render;
    var a, b := Render(q), Render(p);
    if Covers(q, p) {
      assert a + "/" <= b + "/";
    }
    if a + "/" <= b + "/" {
      if |a| < |b| {
        assert (b + "/")[..|a| + 1] == b[..|a| + 1];
      } else {
        assert a == (a + "/")[..|a|] == (b + "/")[..|a|] == b;
      }
    }
  }

  /** With the slash appended the text test leaves out the path itself. */
  lemma BelowIsProperPrefix(q: Path, p: Path)
    ensures Render(q) + "/" <= Render(p) <==> q < p
  {
    hide Render;
    CoversIsPrefix(q, p);
    if q < p {
      assert p[..|q|] == q && p[..|p|] == p;
      LongerText(p, |q|, |p|);
    } else {
      assert q <= p ==> q == p[..|q|] == p;
      assert |Render(q) + "/"| > |Render(q)|;
      assert Render(q) + "/" <= Render(p) ==> Covers(q, p);
    }
  }

  lemma {:induction false} ClosedPrefix(q: seq<Name>, p: seq<Name>)
    ensures Render(q) + "/" <= Render(p) + "/" <==> q <= p
    decreases |q|
  {
    var a, b := Render(q) + "/", Render(p) + "/";
    if q == [] {
      StartsWithSlash(p);
    } else if p == [] {
      assert a[0] == '/' && a[1] == q[0][0] != '/';
      assert b == "/";
    } else {
      ClosedPrefix(q[1..], p[1..]);
      SameName(q[0], p[0], Render(q[1..]) + "/", Render(p[1..]) + "/");
      StartsWithSlash(q[1..]);
      StartsWithSlash(p[1..]);
      assert a == "/" + (q[0] + (Render(q[1..]) + "/"));
      assert b == "/" + (p[0] + (Render(p[1..]) + "/"));
      DropSlash(q[0] + (Render(q[1..]) + "/"), p[0] + (Render(p[1..]) + "/"));
      PrefixByHead(q, p);
    }
  }

  lemma PrefixByHead(q: seq<Name>, p: seq<Name>)
    requires q != [] && p != []
    ensures q <= p <==> q[0] == p[0] && q[1..] <= p[1..]
  {
  }

  lemma DropSlash(a: string, b: string)
    ensures "/" + a <= "/" + b <==> a <= b
  {
    assert ("/" + a)[1..] == a && ("/" + b)[1..] == b;
    if "/" + a <= "/" + b {
      assert a == ("/" + b)[..|a| + 1][1..] == b[..|a|];
    }
  }

  lemma StartsWithSlash(p: seq<Name>)
    ensures "/" <= Render(p) + "/"
  {
  }

  /** Two names in front of slashes agree as soon as one text is a prefix of the other. */
  lemma SameName(m: Name, n: Name, a: string, b: string)
    requires "/" <= a && "/" <= b
    ensures m + a <= n + b <==> m == n && a <= b
  {
    if m + a <= n + b {
      var k := if |m| < |n| then |m| else |n|;
      assert (m + a)[k] == (n + b)[k];
    }
    if m + a <= n + b && |m| == |n| {
      assert m == (m + a)[..|m|] == (n + b)[..|m|] == n;
      assert a == (m + a)[|m|..] == (n + b)[..|m + a|][|m|..] == b[..|a|];
    }
  }

  /** Of two prefixes of one path, the one with more components has the longer text. */
  lemma LongerText(p: Path, j: nat, k: nat)
    requires j <= k <= |p|
    ensures |Render(p[..j])| <= |Render(p[..k])|
    ensures j < k ==> |Render(p[..j])| < |Render(p[..k])|
  {
    RenderConcat(p[..j], p[j..k]);
    assert p[..j] + p[j..k] == p[..k];
  }

  lemma {:induction false} RenderConcat(a: seq<Name>, b: seq<Name>)
    ensures Render(a + b) == Render(a) + Render(b)
    ensures b != [] ==> |Render(b)| > 0
  {
    if a == [] {
      assert a + b == b;
    } else {
      assert (a + b)[1..] == a[1..] + b;
      RenderConcat(a[1..], b);
    }
  }
}
