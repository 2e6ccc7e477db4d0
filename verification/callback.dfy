/**
  The decision path: a button press arrives as `action:filename`, the
  action is dispatched to the ledger, and an approved photo is moved into
  the archive folder under a name that does not overwrite anything there.
*/
module Callback {
  import opened Wrappers
  import opened Db
  import Strings
  import Decimal
  import Selection

  /**
    Python's `data.split(":", 1)` unpacked into two names: None when the
    data holds no colon (the unpacking raises), otherwise the text before
    the first colon and everything after it.
  */
  function SplitAction(data: string): (r: Option<(string, string)>)
    ensures r.None? <==> ':' !in data
    ensures r.Some? ==> ':' !in r.value.0 && r.value.0 + ":" + r.value.1 == data
  {
    if |data| == 0 then None
    else if data[0] == ':' then Some(("", data[1..]))
    else match SplitAction(data[1..])
      case None => None
      case Some((action, rest)) => Some(([data[0]] + action, rest))
  }

  /** Splitting undoes joining whenever the action holds no colon; the file name may hold any. */
  lemma SplitActionOfJoined(action: string, name: string)
    requires ':' !in action
    ensures SplitAction(action + ":" + name) == Some((action, name))
  {
    var r := SplitAction(action + ":" + name);
    Strings.SplitAtFirst(':', r.value.0, r.value.1, action, name);
  }

  /** The payloads the suggestion's buttons carry parse back to their action and file. */
  lemma ButtonDataRoundTrip(name: string)
    ensures SplitAction(Selection.ApproveData(name)) == Some(("approve", name))
    ensures SplitAction(Selection.SkipData(name)) == Some(("skip", name))
  {
    assert Selection.ApproveData(name) == "approve" + ":" + name;
    assert Selection.SkipData(name) == "skip" + ":" + name;
    SplitActionOfJoined("approve", name);
    SplitActionOfJoined("skip", name);
  }

  /** Index of the last `c` in `s`, or -1 (Python's `str.rfind`). */
  function RFind(s: string, c: char): (k: int)
    ensures -1 <= k < |s|
    ensures k >= 0 ==> s[k] == c
    ensures forall j :: k < j < |s| ==> s[j] != c
  {
    if |s| == 0 then -1
    else if s[|s| - 1] == c then |s| - 1
    else RFind(s[..|s| - 1], c)
  }

  /**
    `os.path.splitext` on a POSIX path: the extension starts at the last
    dot of the final path component, unless everything before that dot in
    the component is dots too (a hidden file such as `.profile`).
  */
  function SplitExt(p: string): (r: (string, string))
    ensures r.0 + r.1 == p
    ensures r.1 == [] || (r.1[0] == '.' && '.' !in r.1[1..] && '/' !in r.1)
    ensures r.1 != [] ==> exists j :: RFind(p, '/') < j < |r.0| && p[j] != '.'
    ensures r.1 == [] ==> forall i, j :: RFind(p, '/') < i < j < |p| && p[j] == '.' ==> p[i] == '.'
  {
    var sepIndex := RFind(p, '/');
    var dotIndex := RFind(p, '.');
    if dotIndex > sepIndex && exists j :: sepIndex + 1 <= j < dotIndex && p[j] != '.' then
      assert p[dotIndex..][1..] == p[dotIndex + 1..];
      (p[..dotIndex], p[dotIndex..])
    else
      (p, [])
  }

  /** A file name without a slash or a leading dot splits at its last dot. */
  lemma SplitExtAt(p: string, d: nat)
    requires '/' !in p && 0 < d < |p| && p[0] != '.'
    requires p[d] == '.' && '.' !in p[d + 1..]
    ensures SplitExt(p) == (p[..d], p[d..])
  {
    assert forall j :: d < j < |p| ==> p[j] == p[d + 1..][j - d - 1];
    assert RFind(p, '.') == d;
    assert RFind(p, '/') == -1;
  }

  /** A plain extension, and a double one whose last part alone is the extension. */
  lemma SplitExtExamples()
    ensures SplitExt("photo.jpg") == ("photo", ".jpg")
    ensures SplitExt("a.tar.gz") == ("a.tar", ".gz")
  {
    var p, q := "photo.jpg", "a.tar.gz";
    assert '/' !in p && '.' !in p[6..];
    SplitExtAt(p, 5);
    assert p[..5] == "photo" && p[5..] == ".jpg";
    assert '/' !in q && '.' !in q[6..];
    SplitExtAt(q, 5);
    assert q[..5] == "a.tar" && q[5..] == ".gz";
  }

  /** A hidden file has no extension, and neither has a name whose only dot is in a directory. */
  lemma SplitExtNoExtension()
    ensures SplitExt(".profile") == (".profile", "")
    ensures SplitExt("d.x/photo") == ("d.x/photo", "")
  {
  }

  /** The `i`-th alternative archive name, `base_i.ext`. */
  function Numbered(name: string, i: nat): string {
    SplitExt(name).0 + "_" + Decimal.Show(i) + SplitExt(name).1
  }

  /**
    An alternative name is the name with an underscore and the counter put
    in front of its extension, so it is never the name itself.
  */
  lemma NumberedShape(name: string, i: nat)
    ensures |Numbered(name, i)| == |name| + 1 + |Decimal.Show(i)|
    ensures Numbered(name, i) != name
    ensures Numbered(name, i)[..|SplitExt(name).0| + 1] == SplitExt(name).0 + "_"
    ensures Numbered(name, i)[|Numbered(name, i)| - |SplitExt(name).1|..] == SplitExt(name).1
  {
  }

  lemma NumberedInjective(name: string, i: nat, j: nat)
    requires Numbered(name, i) == Numbered(name, j)
    ensures i == j
  {
    Strings.CancelAround(SplitExt(name).0 + "_", Decimal.Show(i), Decimal.Show(j), SplitExt(name).1);
    Decimal.ShowInjective(i, j);
  }

  /** The first `n` alternative names. */
  ghost function NumberedUpTo(name: string, n: nat): set<string> {
    set i | 1 <= i <= n :: Numbered(name, i)
  }

  lemma {:induction false} NumberedUpToSize(name: string, n: nat)
    ensures |NumberedUpTo(name, n)| == n
  {
    if n > 0 {
      NumberedUpToSize(name, n - 1);
      assert NumberedUpTo(name, n) == NumberedUpTo(name, n - 1) + {Numbered(name, n)};
      forall i | 1 <= i <= n - 1
        ensures Numbered(name, i) != Numbered(name, n)
      {
        if Numbered(name, i) == Numbered(name, n) {
          NumberedInjective(name, i, n);
        }
      }
    }
  }

  /** Among the first |archive| + 1 alternatives at least one is free, so the search stops. */
  lemma FreeNumberExists(name: string, archive: set<string>) returns (w: nat)
    ensures 1 <= w <= |archive| + 1 && Numbered(name, w) !in archive
  {
    var n := |archive| + 1;
    var s := NumberedUpTo(name, n);
    NumberedUpToSize(name, n);
    assert s == (s - archive) + (s * archive);
    assert |s * archive| <= |archive| by {
      assert archive == (s * archive) + (archive - s);
    }
    assert |s - archive| > 0;
    var x :| x in s - archive;
    w :| 1 <= w <= n && Numbered(name, w) == x;
  }

  /** `i` is the smallest counter >= 1 whose `base_i.ext` is not in the archive. */
  ghost predicate SmallestFree(name: string, archive: set<string>, i: nat) {
    && 1 <= i && Numbered(name, i) !in archive
    && forall k :: 1 <= k < i ==> Numbered(name, k) in archive
  }

  /** Counting up from 1 meets a free counter, so a smallest one exists. */
  lemma SmallestFreeExists(name: string, archive: set<string>)
    ensures exists i :: SmallestFree(name, archive, i)
  {
    var w := FreeNumberExists(name, archive);
    var i: nat := 1;
    while Numbered(name, i) in archive
      invariant 1 <= i <= w
      invariant forall k :: 1 <= k < i ==> Numbered(name, k) in archive
      decreases w - i
    {
      i := i + 1;
    }
    assert SmallestFree(name, archive, i);
  }

  /** The counter the collision loop stops at. */
  ghost function FirstFreeNumber(name: string, archive: set<string>): (i: nat)
    ensures SmallestFree(name, archive, i)
  {
    SmallestFreeExists(name, archive);
    var i :| SmallestFree(name, archive, i);
    i
  }

  /** There is only one smallest free counter. */
  lemma SmallestFreeUnique(name: string, archive: set<string>, i: nat, j: nat)
    requires SmallestFree(name, archive, i) && SmallestFree(name, archive, j)
    ensures i == j
  {
  }

  /**
    `dest` is where the collision loop puts `name`: the name itself when the
    archive lacks it, otherwise `base_i.ext` for the smallest free i >= 1.
  */
  ghost predicate IsArchiveName(name: string, archive: set<string>, dest: string) {
    && dest !in archive
    && (name !in archive ==> dest == name)
    && (name in archive ==> dest == Numbered(name, FirstFreeNumber(name, archive)))
  }

  /** The destination in the archive, found by counting up from 1. */
  method ArchiveName(name: string, archive: set<string>) returns (dest: string)
    ensures IsArchiveName(name, archive, dest)
  {
    dest := name;
    if dest in archive {
      ghost var w := FreeNumberExists(name, archive);
      var i: nat := 1;
      dest := Numbered(name, i);
      while dest in archive
        invariant 1 <= i <= w
        invariant dest == Numbered(name, i)
        invariant forall k :: 1 <= k < i ==> Numbered(name, k) in archive
        decreases w - i
      {
        i := i + 1;
        dest := Numbered(name, i);
      }
      SmallestFreeUnique(name, archive, i, FirstFreeNumber(name, archive));
    }
  }

  /** The two folders the decision path touches, as sets of names. */
  datatype Folders = Folders(photos: set<string>, archive: set<string>)

  /** How the move into the archive ended. */
  datatype MoveResult = Moved(dest: string) | SourceMissing | MoveFailed

  /** The outcome reported back in the chat. */
  datatype Reply = InvalidAction | UnknownAction | Approved(move: MoveResult) | Skipped(name: string)

  datatype CallbackResult = CallbackResult(ledger: Ledger, folders: Folders, reply: Reply)

  /**
    Handle one button press. `moveFails` stands for the file system
    refusing the move for a reason other than a missing source.
  */
  method HandleCallback(l: Ledger, data: string, folders: Folders, moveFails: bool) returns (res: CallbackResult)
    ensures ':' !in data ==> res == CallbackResult(l, folders, InvalidAction)
    ensures SplitAction(data).Some? ==>
      var (action, name) := SplitAction(data).value;
      && (action == "approve" ==>
            && res.ledger == MarkApproved(l, name)
            && res.reply.Approved?
            && (res.reply.move.SourceMissing? <==> name !in folders.photos)
            && (res.reply.move.MoveFailed? <==> name in folders.photos && moveFails)
            && (res.reply.move.Moved? ==>
                  && IsArchiveName(name, folders.archive, res.reply.move.dest)
                  && res.folders == Folders(folders.photos - {name}, folders.archive + {res.reply.move.dest}))
            && (!res.reply.move.Moved? ==> res.folders == folders))
      && (action == "skip" ==> res == CallbackResult(MarkSkipped(l, name), folders, Skipped(name)))
      && (action != "approve" && action != "skip" ==> res == CallbackResult(l, folders, UnknownAction))
  {
    var parsed := SplitAction(data);
    if parsed.None? {
      return CallbackResult(l, folders, InvalidAction);
    }
    var (action, name) := parsed.value;
    if action == "approve" {
      var l' := MarkApproved(l, name);
      var dest := ArchiveName(name, folders.archive);
      if name !in folders.photos {
        res := CallbackResult(l', folders, Approved(SourceMissing));
      } else if moveFails {
        res := CallbackResult(l', folders, Approved(MoveFailed));
      } else {
        res := CallbackResult(l', Folders(folders.photos - {name}, folders.archive + {dest}), Approved(Moved(dest)));
      }
    } else if action == "skip" {
      res := CallbackResult(MarkSkipped(l, name), folders, Skipped(name));
    } else {
      res := CallbackResult(l, folders, UnknownAction);
    }
  }
}
