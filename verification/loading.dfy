/**
 * `load_listeners` in its two versions: `python/combined.py`, which gates the
 * directory and each file on owner and permission bits, and
 * `python/listener.py`, which only asks for readable and executable files.
 * Filesystem facts (`stat`, `os.path.isfile`, `os.access`) are inputs.
 */
module Loading {
  import opened Base
  import Filter

  /** The fields of an `os.stat` result the loaders read. */
  datatype Stat = Stat(uid: nat, gid: nat, mode: bv32)

  /**
   * One name from `os.listdir`, with what the loaders learn about it:
   * `isFile` is `os.path.isfile` (follows symbolic links), `readExec` is
   * `os.access(f, R_OK | X_OK)`, `readExecNoFollow` the same call with
   * `follow_symlinks=False`, and `lstat` is `os.stat(f, follow_symlinks=False)`.
   */
  datatype Entry = Entry(name: string, isFile: bool, readExec: bool, readExecNoFollow: bool, lstat: Stat)

  /** The process's real user and group (`os.getuid()`, `os.getgid()`). */
  datatype Principal = Principal(uid: nat, gid: nat)

  /** `0o7277`: set-id and sticky bits, owner write, and every group and other bit. */
  const TooPermissiveBits: bv32 := 0xEBF

  /** `0o7777`: the permission part of `st_mode`, as shown in the error message. */
  const PermissionBits: bv32 := 0xFFF

  predicate OwnedBy(st: Stat, who: Principal) {
    st.uid == who.uid && st.gid == who.gid
  }

  predicate Restrictive(mode: bv32) {
    mode & TooPermissiveBits == 0
  }

  /**
   * The permissions the mask leaves acceptable are exactly the subsets of
   * owner read and owner execute (`0o500`).
   */
  lemma RestrictiveMeansOwnerReadExecOnly(mode: bv32)
    ensures Restrictive(mode) <==> mode & PermissionBits in {0x000, 0x040, 0x100, 0x140}
  {
  }

  /** `os.path.join(dir, name)` for a name from `os.listdir` (never absolute, never empty). */
  function Join(dir: string, name: string): (p: string)
    ensures |p| >= |dir| && p[..|dir|] == dir
    ensures |p| > |name| && p[|p| - |name|..] == name && p[|p| - |name| - 1] == '/'
    ensures |p| == |dir| + |name| + (if |dir| > 0 && dir[|dir| - 1] == '/' then 0 else 1)
  {
    if |dir| > 0 && dir[|dir| - 1] == '/' then dir + name else dir + "/" + name
  }

  lemma JoinInjective(dir: string, a: string, b: string)
    requires Join(dir, a) == Join(dir, b)
    ensures a == b
  {
    var pre := if |dir| > 0 && dir[|dir| - 1] == '/' then dir else dir + "/";
    assert Join(dir, a) == pre + a && Join(dir, b) == pre + b;
    assert a == (pre + a)[|pre|..];
    assert b == (pre + b)[|pre|..];
  }

  function Paths(dir: string, es: seq<Entry>): (ps: seq<string>)
    ensures |ps| == |es|
    ensures forall k :: 0 <= k < |es| ==> ps[k] == Join(dir, es[k].name)
  {
    seq(|es|, k requires 0 <= k < |es| => Join(dir, es[k].name))
  }

  /** Why `combined.py` refuses the listener directory. */
  datatype LoadError =
    | ForeignOwner(uid: nat, gid: nat)
    | TooPermissive(perms: bv32)
      /** `os.listdir` raised, e.g. `PermissionError` on a mode without the owner's read bit. */
    | Unlistable

  /**
   * The per-file gate of `combined.py` as written: the ownership test reads
   * `dirStat`, the directory's `stat`, not the file's.
   */
  function FileAdmitted(who: Principal, dirStat: Stat, e: Entry): (b: bool)
    ensures b ==> e.lstat.mode & PermissionBits in {0x000, 0x040, 0x100, 0x140}
    ensures b && e.readExec == e.readExecNoFollow ==> PlainAdmitted(e)
  {
    && e.isFile
    && e.readExecNoFollow
    && OwnedBy(dirStat, who)
    && Restrictive(e.lstat.mode)
  }

  function Admission(who: Principal, dirStat: Stat): Entry -> bool {
    e => FileAdmitted(who, dirStat, e)
  }

  /**
   * `combined.py`'s `load_listeners` on the directory `dir`, whose `stat`
   * (taken after creating it when it was missing) is `dirStat` and whose
   * listing is `listing`, or `None` when `os.listdir` raises. A refused or
   * unlistable directory raises and loads nothing.
   */
  function LoadListeners(dir: string, who: Principal, dirStat: Stat, listing: Option<seq<Entry>>): (r: Result<seq<string>, LoadError>)
    ensures r.Ok? <==> OwnedBy(dirStat, who) && Restrictive(dirStat.mode) && listing.Some?
    ensures !OwnedBy(dirStat, who) ==> r == Err(ForeignOwner(dirStat.uid, dirStat.gid))
    ensures OwnedBy(dirStat, who) && !Restrictive(dirStat.mode) ==> r == Err(TooPermissive(dirStat.mode & PermissionBits))
    ensures OwnedBy(dirStat, who) && Restrictive(dirStat.mode) && listing.None? ==> r == Err(Unlistable)
    ensures r.Ok? ==> |r.value| <= |listing.value|
  {
    if !OwnedBy(dirStat, who) then Err(ForeignOwner(dirStat.uid, dirStat.gid))
    else if !Restrictive(dirStat.mode) then Err(TooPermissive(dirStat.mode & PermissionBits))
    else match listing
      case None => Err(Unlistable)
      case Some(es) => Ok(Paths(dir, Filter.Keep(es, Admission(who, dirStat))))
  }

  /**
   * Once the directory is accepted, the per-file ownership test never rejects
   * anything: a file is loaded exactly when it is a regular file, passes the
   * access check and has restrictive permissions, whoever owns it.
   */
  lemma FileOwnerNeverChecked(dir: string, who: Principal, dirStat: Stat, listing: seq<Entry>)
    requires LoadListeners(dir, who, dirStat, Some(listing)).Ok?
    ensures forall e: Entry :: FileAdmitted(who, dirStat, e) <==> e.isFile && e.readExecNoFollow && Restrictive(e.lstat.mode)
  {
  }

  /**
   * The loaded listeners are exactly the joined paths of the admitted
   * entries, in listing order: `Filter.Selected` gives, in increasing order,
   * the listing positions they come from, and an entry is loaded exactly when
   * it passes the gate.
   */
  lemma {:induction false} LoadedInListingOrder(dir: string, who: Principal, dirStat: Stat, listing: seq<Entry>)
    requires LoadListeners(dir, who, dirStat, Some(listing)).Ok?
    ensures var ls := LoadListeners(dir, who, dirStat, Some(listing)).value;
            var idx := Filter.Selected(listing, Admission(who, dirStat));
            && |idx| == |ls|
            && Filter.StrictlyIncreasing(idx)
            && (forall k :: 0 <= k < |ls| ==> idx[k] < |listing| && ls[k] == Join(dir, listing[idx[k]].name))
            && (forall i :: 0 <= i < |listing| ==>
                  (i in idx <==> listing[i].isFile && listing[i].readExecNoFollow && Restrictive(listing[i].lstat.mode)))
  {
    Filter.KeepIsSelection(listing, Admission(who, dirStat));
  }

  /** Names from one listing are distinct, so no listener is loaded twice. */
  lemma LoadedOnce(dir: string, who: Principal, dirStat: Stat, listing: seq<Entry>)
    requires LoadListeners(dir, who, dirStat, Some(listing)).Ok?
    requires forall i, j :: 0 <= i < j < |listing| ==> listing[i].name != listing[j].name
    ensures var ls := LoadListeners(dir, who, dirStat, Some(listing)).value;
            forall a, b :: 0 <= a < b < |ls| ==> ls[a] != ls[b]
  {
    var ls := LoadListeners(dir, who, dirStat, Some(listing)).value;
    var idx := Filter.Selected(listing, Admission(who, dirStat));
    LoadedInListingOrder(dir, who, dirStat, listing);
    forall a, b | 0 <= a < b < |ls| ensures ls[a] != ls[b] {
      if ls[a] == ls[b] {
        JoinInjective(dir, listing[idx[a]].name, listing[idx[b]].name);
        assert false;
      }
    }
  }

  /**
   * A symbolic link is never loaded by `combined.py`: its own `lstat` mode
   * carries every permission bit (`0o777` on Linux), which the mask rejects,
   * even when it points at an acceptable regular file.
   */
  lemma SymlinkNeverAdmitted(who: Principal, dirStat: Stat, e: Entry)
    requires e.lstat.mode & 0x1FF == 0x1FF
    ensures !FileAdmitted(who, dirStat, e)
  {
  }

  /** How `listener.py`'s loading ends: with listeners, or with `sys.exit(status)`. */
  datatype Startup = Loaded(listeners: seq<string>) | Exit(status: int)

  predicate PlainAdmitted(e: Entry) {
    e.isFile && e.readExec
  }

  /** The listeners `listener.py` finds in a listing: joined paths of the admitted entries. */
  function PlainFound(dir: string, listing: seq<Entry>): (ps: seq<string>)
    ensures |ps| <= |listing|
    ensures forall p :: p in ps ==> exists e :: e in listing && PlainAdmitted(e) && p == Join(dir, e.name)
  {
    var kept := Filter.Keep(listing, PlainAdmitted);
    var ps := Paths(dir, kept);
    assert forall k :: 0 <= k < |ps| ==> kept[k] in listing && PlainAdmitted(kept[k]) && ps[k] == Join(dir, kept[k].name);
    ps
  }

  /**
   * `listener.py`'s `load_listeners`. `listing` is `None` when the directory
   * does not exist; it is then created, and so lists nothing.
   */
  function LoadListenersPlain(dir: string, listing: Option<seq<Entry>>): (r: Startup)
    ensures r.Exit? ==> r.status == 1
    ensures r.Exit? <==> listing.None? || forall e :: e in listing.value ==> !PlainAdmitted(e)
    ensures r.Loaded? ==> 0 < |r.listeners| <= |listing.value| && r.listeners == PlainFound(dir, listing.value)
  {
    match listing
    case None => Exit(1)
    case Some(es) =>
      PlainFoundEmpty(dir, es);
      var found := PlainFound(dir, es);
      if |found| > 0 then Loaded(found) else Exit(1)
  }

  /** Nothing is found exactly when no entry is admitted. */
  lemma PlainFoundEmpty(dir: string, listing: seq<Entry>)
    ensures |PlainFound(dir, listing)| <= |listing|
    ensures |PlainFound(dir, listing)| == 0 <==> forall e :: e in listing ==> !PlainAdmitted(e)
  {
    var kept := Filter.Keep(listing, PlainAdmitted);
    if |kept| > 0 {
      assert kept[0] in kept;
    } else {
      Filter.KeepIsSelection(listing, PlainAdmitted);
      forall e | e in listing ensures !PlainAdmitted(e) {
        var i :| 0 <= i < |listing| && listing[i] == e;
        assert i !in Filter.Selected(listing, PlainAdmitted);
      }
    }
  }

  /**
   * The listeners `listener.py` finds are exactly the regular, readable and
   * executable entries, in listing order; neither ownership nor permission
   * bits are consulted.
   */
  lemma {:induction false} PlainFoundInListingOrder(dir: string, listing: seq<Entry>)
    ensures |Filter.Selected(listing, PlainAdmitted)| == |PlainFound(dir, listing)|
    ensures Filter.StrictlyIncreasing(Filter.Selected(listing, PlainAdmitted))
    ensures forall k :: 0 <= k < |PlainFound(dir, listing)| ==>
              Filter.Selected(listing, PlainAdmitted)[k] < |listing| &&
              PlainFound(dir, listing)[k] == Join(dir, listing[Filter.Selected(listing, PlainAdmitted)[k]].name)
    ensures forall i :: 0 <= i < |listing| ==>
              (i in Filter.Selected(listing, PlainAdmitted) <==> listing[i].isFile && listing[i].readExec)
  {
    Filter.KeepIsSelection(listing, PlainAdmitted);
  }
}
