/**
 Properties of the whole handler that relate several requests or file
 systems, and concrete requests worked through end to end.
 */
module Scenarios {
  import opened Paths
  import opened Selection
  import opened Handler

  /** The directory listed for a "latest" request does not depend on the
      request: any two URL paths whose last element is "latest" get the same
      response, because both list `root/latest`. */
  lemma LatestIgnoresRequestDirectory(policy: Policy, root: string, fs: FileSystem, p1: string, p2: string)
    requires NamesLatest(p1) && NamesLatest(p2)
    ensures Handle(policy, root, fs, "GET", p1) == Handle(policy, root, fs, "GET", p2)
    ensures Handle(policy, root, fs, "GET", p1) == ResolveLatest(policy, LatestName, fs.readDir(Join(root, LatestName)))
  {
  }

  /** A direct file request never consults a directory listing: file systems
      that agree on opening `root/urlPath` give the same response. */
  lemma DirectFileIgnoresListings(policy: Policy, root: string, fs1: FileSystem, fs2: FileSystem, urlPath: string)
    requires HasSuffix(urlPath, TarSuffix)
    requires fs1.open(Join(root, urlPath)) == fs2.open(Join(root, urlPath))
    ensures Handle(policy, root, fs1, "GET", urlPath) == Handle(policy, root, fs2, "GET", urlPath)
  {
  }

  /** Every redirect answers a GET of a "latest" path with 303 See Other and
      the location `latest/<name>` of an entry of the listing of
      `root/latest`. */
  lemma RedirectNamesListedEntry(policy: Policy, root: string, fs: FileSystem, verb: string, urlPath: string)
    requires Handle(policy, root, fs, verb, urlPath).Redirect?
    ensures verb == "GET" && NamesLatest(urlPath)
    ensures fs.readDir(Join(root, LatestName)).Listed?
    ensures var r := Handle(policy, root, fs, verb, urlPath);
      var infos := fs.readDir(Join(root, LatestName)).infos;
      && r.status == StatusSeeOther
      && exists k | 0 <= k < |infos| :: r.location == Join(LatestName, infos[k].name)
  {
  }

  /** The as-written handler redirects to the last entry with a time after
      the zero time; only entries from that one on decide the location. */
  lemma AsWrittenRedirectTarget(root: string, fs: FileSystem, urlPath: string)
    requires NamesLatest(urlPath)
    requires fs.readDir(Join(root, LatestName)).Listed?
    requires !NoneAfterZero(fs.readDir(Join(root, LatestName)).infos)
    ensures var infos := fs.readDir(Join(root, LatestName)).infos;
      var k := LastAfterZero(infos);
      && After(infos[k].modTime, ZeroTime)
      && (forall j | k < j < |infos| :: !After(infos[j].modTime, ZeroTime))
      && Handle(AsWritten, root, fs, "GET", urlPath) == Redirect(StatusSeeOther, Join(LatestName, infos[k].name))
  {
    var infos := fs.readDir(Join(root, LatestName)).infos;
    var k := LastAfterZero(infos);
    var r := ResolveLatest(AsWritten, LatestName, Listed(infos));
    assert r == Redirect(StatusSeeOther, Join(LatestName, infos[k].name));
  }

  /** The corrected handler redirects to the most recently modified entry,
      the first one among equal times. */
  lemma IntendedRedirectTarget(root: string, fs: FileSystem, urlPath: string)
    requires NamesLatest(urlPath)
    requires fs.readDir(Join(root, LatestName)).Listed?
    requires !NoneAfterZero(fs.readDir(Join(root, LatestName)).infos)
    ensures var infos := fs.readDir(Join(root, LatestName)).infos;
      var k := NewestIndex(infos);
      && IsFirstNewest(infos, k)
      && Handle(Intended, root, fs, "GET", urlPath) == Redirect(StatusSeeOther, Join(LatestName, infos[k].name))
  {
    var infos := fs.readDir(Join(root, LatestName)).infos;
    var k := NewestIndex(infos);
    var r := ResolveLatest(Intended, LatestName, Listed(infos));
    assert r == Redirect(StatusSeeOther, Join(LatestName, infos[k].name));
  }

  /** A file system whose only directory is `/srv/builds`, holding two
      archives; `/srv/latest` does not exist. */
  function BuildsOnly(): FileSystem
  {
    FileSystem(
      p => NotExist,
      p => if p == "/srv/builds" then Listed([FileInfo("a.tar.gz", 1), FileInfo("b.tar.gz", 2)])
           else ListFailed("no such file or directory"))
  }

  /** GET /builds/latest lists `/srv/latest`, not `/srv/builds`: with only
      the latter present the answer is 500, not a redirect into builds/. */
  lemma BuildsLatestListsRootLatest()
    ensures Handle(AsWritten, "/srv", BuildsOnly(), "GET", "/builds/latest")
      == Error(StatusInternalServerError, "no such file or directory")
  {
    assert NamesLatest("/builds/latest") by {
      assert "/builds/latest"[14 - 7..] == "/latest";
    }
    assert Join("/srv", LatestName) == "/srv/latest";
    assert "/srv/latest" != "/srv/builds" by {
      assert "/srv/latest"[5] != "/srv/builds"[5];
    }
  }

  /** A file system whose directory `/srv/latest` holds two archives,
      listed in name order as `ioutil.ReadDir` returns them: the newer
      `a.tar.gz`, then the older `b.tar.gz`. */
  function LatestHolding(): FileSystem
  {
    FileSystem(
      p => NotExist,
      p => if p == "/srv/latest" then Listed([FileInfo("a.tar.gz", 2), FileInfo("b.tar.gz", 1)])
           else ListFailed("no such file or directory"))
  }

  /** GET /latest against that directory: the handler as written redirects
      to `latest/b.tar.gz`, the older file, because it is the last entry. */
  lemma LatestRedirectsToLastPositive()
    ensures Handle(AsWritten, "/srv", LatestHolding(), "GET", "/latest") == Redirect(StatusSeeOther, "latest/b.tar.gz")
  {
    var infos := LatestListingFacts();
    assert IsLastAfterZero(infos, 1);
    LastAfterZeroUnique(infos, 1, LastAfterZero(infos));
    AsWrittenRedirectTarget("/srv", LatestHolding(), "/latest");
    KnownJoins();
  }

  /** On the same directory the corrected handler redirects to
      `latest/a.tar.gz`, the newer file. */
  lemma LatestRedirectsIntendedToNewest()
    ensures Handle(Intended, "/srv", LatestHolding(), "GET", "/latest") == Redirect(StatusSeeOther, "latest/a.tar.gz")
  {
    var infos := LatestListingFacts();
    assert IsFirstNewest(infos, 0);
    FirstNewestUnique(infos, 0, NewestIndex(infos));
    IntendedRedirectTarget("/srv", LatestHolding(), "/latest");
    KnownJoins();
  }

  /** What GET /latest sees of `LatestHolding`. */
  lemma LatestListingFacts() returns (infos: seq<FileInfo>)
    ensures infos == [FileInfo("a.tar.gz", 2), FileInfo("b.tar.gz", 1)]
    ensures NamesLatest("/latest")
    ensures LatestHolding().readDir(Join("/srv", LatestName)) == Listed(infos)
    ensures !NoneAfterZero(infos)
  {
    infos := [FileInfo("a.tar.gz", 2), FileInfo("b.tar.gz", 1)];
    assert "/latest"[7 - 7..] == "/latest";
    assert Join("/srv", LatestName) == "/srv/latest";
    assert After(infos[0].modTime, ZeroTime);
  }

  /** A file system holding the one archive `/srv/builds/x.tar.gz`. */
  function OneArchive(): FileSystem
  {
    FileSystem(
      p => if p == "/srv/builds/x.tar.gz" then Opened(ReadAll([31, 139])) else NotExist,
      p => ListFailed("no such file or directory"))
  }

  /** GET /builds/x.tar.gz opens `/srv/builds/x.tar.gz`, with one separator
      between the root and the URL path, and streams its bytes. */
  lemma ServesArchiveBelowRoot(policy: Policy)
    ensures Handle(policy, "/srv", OneArchive(), "GET", "/builds/x.tar.gz") == Content(TarContentType, [31, 139])
  {
    var tgz := "/builds/x.tar.gz";
    assert HasSuffix(tgz, TarSuffix) by {
      assert tgz[|tgz| - 7..] == TarSuffix;
    }
    KnownJoins();
  }

  /** The joined paths the scenarios above rely on, spelled out. */
  lemma KnownJoins()
    ensures Join(LatestName, "a.tar.gz") == "latest/a.tar.gz"
    ensures Join(LatestName, "b.tar.gz") == "latest/b.tar.gz"
    ensures Join("/srv", "/builds/x.tar.gz") == "/srv/builds/x.tar.gz"
  {
    var a, b := Join(LatestName, "a.tar.gz"), Join(LatestName, "b.tar.gz");
    assert a == "latest" + "/" + "a.tar.gz";
    assert b == "latest" + "/" + "b.tar.gz";
    forall i | 0 <= i < 15 ensures a[i] == "latest/a.tar.gz"[i] && b[i] == "latest/b.tar.gz"[i] {
    }
    var x := Join("/srv", "/builds/x.tar.gz");
    assert x == "/srv" + "/builds/x.tar.gz";
    forall i | 0 <= i < 20 ensures x[i] == "/srv/builds/x.tar.gz"[i] {
    }
  }

  /** A POST is refused whatever its path. */
  lemma PostIsRefused(policy: Policy, root: string, fs: FileSystem, urlPath: string)
    ensures Handle(policy, root, fs, "POST", urlPath) == Error(StatusMethodNotAllowed, "Method Not Allowed")
  {
  }

  /** GET /builds/x.txt is not an archive; GET /builds/x.tar.gz on a missing
      file is 404. */
  lemma DirectRequestErrors(policy: Policy)
    ensures Handle(policy, "/srv", BuildsOnly(), "GET", "/builds/x.txt")
      == Error(StatusUnprocessableEntity, "Not a Tar Archive")
    ensures Handle(policy, "/srv", BuildsOnly(), "GET", "/builds/x.tar.gz")
      == Error(StatusNotFound, "Not Found")
  {
    var txt := "/builds/x.txt";
    assert !NamesLatest(txt) by {
      assert txt[|txt| - 2] != LatestName[|LatestName| - 2];
    }
    assert !HasSuffix(txt, TarSuffix) by {
      assert txt[|txt| - 4] != TarSuffix[|TarSuffix| - 4];
    }
    var tgz := "/builds/x.tar.gz";
    assert HasSuffix(tgz, TarSuffix) by {
      assert tgz[|tgz| - 7..] == TarSuffix;
    }
  }
}
