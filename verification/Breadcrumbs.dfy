/** The breadcrumb trail of a storage prefix: the root, then one crumb per folder. */
module Breadcrumbs {
  import opened Keys

  datatype Crumb = Crumb(name: string, prefix: string)

  const ROOT := Crumb("root", "")

  /** The folders joined, each with a closing slash. */
  function Path(folders: seq<string>): string {
    if folders == [] then "" else Path(folders[..|folders| - 1]) + folders[|folders| - 1] + "/"
  }

  /** What a trail over some folders must be, crumb by crumb. */
  ghost predicate IsTrail(crumbs: seq<Crumb>, folders: seq<string>) {
    && |crumbs| == |folders| + 1 && crumbs[0] == Crumb("root", "")
    && forall i :: 1 <= i < |crumbs| ==> crumbs[i] == Crumb(folders[i - 1], Path(folders[..i]))
  }

  method ParsePrefixToCrumbs(prefix: string) returns (crumbs: seq<Crumb>)
    ensures IsTrail(crumbs, Segments(prefix))
  {
    crumbs := [ROOT];
    if prefix == [] {
      assert Segments([]) == [];
      return;
    }
    var parts := Segments(prefix);
    var accumulated := "";
    for i := 0 to |parts|
      invariant IsTrail(crumbs, parts[..i])
      invariant accumulated == Path(parts[..i])
    {
      assert parts[..i + 1][..i] == parts[..i];
      accumulated := accumulated + parts[i] + "/";
      ghost var before := crumbs;
      crumbs := crumbs + [Crumb(parts[i], accumulated)];
      assert forall j :: 1 <= j <= i ==> parts[..i][..j] == parts[..i + 1][..j];
      assert parts[..i + 1][..i + 1] == parts[..i + 1];
    }
    assert parts[..|parts|] == parts;
  }

  predicate AreFolders(folders: seq<string>) {
    forall f :: f in folders ==> f != [] && '/' !in f
  }

  lemma {:induction false} SplitPartsHaveNoSlash(s: string)
    ensures forall p :: p in Split(s) ==> '/' !in p
  {
    if s != [] {
      SplitPartsHaveNoSlash(s[1..]);
    }
  }

  lemma {:induction false} NonEmptyKeeps(parts: seq<string>)
    ensures forall p :: p in NonEmpty(parts) <==> p in parts && p != []
  {
    if parts != [] {
      NonEmptyKeeps(parts[1..]);
      assert parts == [parts[0]] + parts[1..];
    }
  }

  lemma SegmentsAreFolders(s: string)
    ensures AreFolders(Segments(s))
  {
    SplitPartsHaveNoSlash(s);
    NonEmptyKeeps(Split(s));
  }

  lemma {:induction false} PathFromFront(folders: seq<string>)
    requires folders != []
    ensures Path(folders) == folders[0] + "/" + Path(folders[1..])
  {
    var n := |folders| - 1;
    var last := folders[n];
    if n == 0 {
      assert folders[..0] == [] && folders[1..] == [];
    } else {
      PathFromFront(folders[..n]);
      assert folders[..n][1..] == folders[1..][..n - 1];
      var middle := Path(folders[1..][..n - 1]);
      assert (folders[0] + "/" + middle) + last + "/" == folders[0] + "/" + (middle + last + "/");
    }
  }

  /** The folders of a path are read back from it. */
  lemma {:induction false} SegmentsOfPath(folders: seq<string>)
    requires AreFolders(folders)
    ensures Segments(Path(folders)) == folders
  {
    if folders != [] {
      PathFromFront(folders);
      assert forall f :: f in folders[1..] ==> f in folders;
      SegmentsOfPath(folders[1..]);
      SplitPart(folders[0], Path(folders[1..]));
      assert Split(Path(folders))[1..] == Split(Path(folders[1..]));
      assert folders == [folders[0]] + folders[1..];
    }
  }

  lemma TrailIsUnique(a: seq<Crumb>, b: seq<Crumb>, folders: seq<string>)
    requires IsTrail(a, folders) && IsTrail(b, folders)
    ensures a == b
  {
    assert forall i :: 0 <= i < |a| ==> a[i] == b[i];
  }

  /** The i-th crumb's prefix parses to exactly the first `i + 1` crumbs. */
  lemma CrumbLeadsToItsTrail(prefix: string, crumbs: seq<Crumb>, i: nat)
    requires IsTrail(crumbs, Segments(prefix)) && i < |crumbs|
    ensures Segments(crumbs[i].prefix) == Segments(prefix)[..i]
    ensures IsTrail(crumbs[..i + 1], Segments(crumbs[i].prefix))
  {
    var folders := Segments(prefix);
    SegmentsAreFolders(prefix);
    assert crumbs[i].prefix == Path(folders[..i]);
    assert forall f :: f in folders[..i] ==> f in folders;
    SegmentsOfPath(folders[..i]);
    assert forall j :: 1 <= j <= i ==> folders[..i][..j] == folders[..j];
  }

  /** Where a click on a crumb goes: any crumb named like the root goes there. */
  function Target(c: Crumb): string {
    if c.name == "root" then "" else c.prefix
  }

  /** A click on the i-th crumb shows the first `i + 1` crumbs exactly unless a folder other than the root is named `root`. */
  lemma ClickLeadsToItsTrail(prefix: string, crumbs: seq<Crumb>, i: nat)
    requires IsTrail(crumbs, Segments(prefix)) && i < |crumbs|
    ensures IsTrail(crumbs[..i + 1], Segments(Target(crumbs[i]))) <==> i == 0 || crumbs[i].name != "root"
  {
    CrumbLeadsToItsTrail(prefix, crumbs, i);
    assert Segments("") == [];
  }

  /** A folder named `root`: its crumb leads to the root. */
  lemma RootFolderGoesHome(crumbs: seq<Crumb>)
    requires IsTrail(crumbs, Segments("root/"))
    ensures crumbs == [ROOT, Crumb("root", "root/")]
    ensures Target(crumbs[1]) == "" && !IsTrail(crumbs, Segments(Target(crumbs[1])))
  {
    SplitPart("root", "");
    assert "root" + "/" + "" == "root/";
    assert Segments("root/") == ["root"];
    assert Path(["root"]) == "root/" by {
      assert ["root"][..0] == [];
    }
    assert ["root"][..1] == ["root"];
    assert Segments("") == [];
  }

  /** Each crumb's prefix properly extends the one before by its own name and a slash. */
  lemma CrumbsNest(prefix: string, crumbs: seq<Crumb>, i: nat)
    requires IsTrail(crumbs, Segments(prefix)) && i + 1 < |crumbs|
    ensures crumbs[i + 1].prefix == crumbs[i].prefix + crumbs[i + 1].name + "/"
    ensures crumbs[i].prefix < crumbs[i + 1].prefix
  {
    var folders := Segments(prefix);
    assert folders[..i + 1][..i] == folders[..i];
    assert crumbs[i].prefix == Path(folders[..i]);
  }

  lemma {:induction false} PathIsJoin(folders: seq<string>)
    requires folders != []
    ensures Path(folders) == Join(folders) + "/"
  {
    PathFromFront(folders);
    if |folders| > 1 {
      PathIsJoin(folders[1..]);
      assert folders[0] + "/" + (Join(folders[1..]) + "/") == folders[0] + "/" + Join(folders[1..]) + "/";
    }
  }

  /**
   * The last crumb is the prefix cleaned up: no empty folders, one closing slash. It
   * is the prefix itself exactly when that has no leading slash, ends in a slash and
   * nowhere doubles one.
   */
  lemma LastCrumbIsCleanPrefix(prefix: string, crumbs: seq<Crumb>)
    requires IsTrail(crumbs, Segments(prefix))
    ensures var last := crumbs[|crumbs| - 1].prefix;
            && (Segments(prefix) != [] ==> last == Join(Segments(prefix)) + "/")
            && (Segments(prefix) == [] ==> last == "")
            && (prefix != [] ==>
                  (last == prefix <==> !Leads(prefix) && Trails(prefix) && NoTwo('/', prefix)))
  {
    var folders := Segments(prefix);
    var last := Path(folders);
    assert folders[..|folders|] == folders;
    CollapseNormalForm(prefix);
    CollapseFixed(prefix);
    if folders == [] {
      OnlySlashes(prefix);
    } else {
      PathIsJoin(folders);
      assert last == Assemble(false, folders, true);
      SegmentsAreFolders(prefix);
      if last == prefix {
        LeadsOfJoin(folders);
      }
    }
  }

  lemma LeadsOfJoin(folders: seq<string>)
    requires folders != [] && AreFolders(folders)
    ensures !Leads(Join(folders) + "/")
  {
    assert folders[0] in folders;
    assert (Join(folders) + "/")[0] == folders[0][0];
  }
}
