/**
 * Lock checks of the commit engine: the decision for one lock, the check of one path
 * (the lock on it, or every lock at or below it), and the walk over a transaction's
 * changed paths in sorted order that skips paths below the last recursively checked one.
 */
module FsLocks {
  import opened Results
  import opened FsTypes

  /** `child` lies strictly below `parent` (both absolute paths). */
  predicate IsBelow(parent: string, child: string) {
    parent != child &&
    if parent == "/" then |child| > 0 && child[0] == '/' else parent + "/" <= child
  }

  /** Below is transitive, also through a path equal to the middle one. */
  lemma BelowTransitive(a: string, b: string, c: string)
    requires IsBelow(a, b) && (c == b || IsBelow(b, c))
    ensures IsBelow(a, c)
  {
    if c != b {
      if b == "/" {
        assert |a + "/"| <= 1;
      } else if a == "/" {
        assert b[0] == (b + "/")[0] == c[0];
      } else {
        assert a + "/" <= c by {
          assert (b + "/")[..|a| + 1] == b[..|a| + 1];
        }
        assert |c| > |a|;
      }
    }
  }

  /** The locks a check of `path` looks at: the lock on it, or with `recursive` also every lock below it. */
  predicate InScope(path: string, lockPath: string, recursive: bool) {
    lockPath == path || (recursive && IsBelow(path, lockPath))
  }

  /** The errors a lock check reports: no user, another lock owner, or a missing token. */
  predicate LockFault(e: FsError) {
    e == NoUser || e == LockOwnerMismatch || e == BadLockToken
  }

  /** Whether `user`, holding `tokens`, may change a path that `lock` covers. */
  function VerifyLock(lock: Lock, tokens: set<string>, user: Option<string>): (r: Result<(), FsError>)
    ensures r.Ok? <==> user.Some? && user.value != "" && user.value == lock.owner && lock.token in tokens
    ensures r.Err? ==> LockFault(r.error)
    ensures (user.None? || user.value == "") ==> r == Err(NoUser)
    ensures user.Some? && user.value != "" && user.value != lock.owner ==> r == Err(LockOwnerMismatch)
    ensures user.Some? && user.value == lock.owner && lock.owner != "" && lock.token !in tokens ==> r == Err(BadLockToken)
  {
    if user.None? || user.value == "" then Err(NoUser)
    else if user.value != lock.owner then Err(LockOwnerMismatch)
    else if lock.token in tokens then Ok(())
    else Err(BadLockToken)
  }

  /** Every lock a check of `path` looks at is held by `user` with a matching token. */
  ghost predicate Covered(locks: map<string, Lock>, path: string, recursive: bool, user: Option<string>, tokens: set<string>) {
    forall q :: q in locks && InScope(path, q, recursive) ==> VerifyLock(locks[q], tokens, user).Ok?
  }

  /**
   * Checks the lock on `path`, or with `recursive` every lock at or below it (in the
   * lock store's own order), and reports the first lock that does not verify.
   */
  method AllowLockedOperation(locks: map<string, Lock>, path: string, user: Option<string>, tokens: set<string>, recursive: bool)
    returns (r: Result<(), FsError>)
    ensures r.Ok? <==> Covered(locks, path, recursive, user, tokens)
    ensures r.Err? ==> exists q :: q in locks && InScope(path, q, recursive) && VerifyLock(locks[q], tokens, user) == r
    ensures r.Err? ==> LockFault(r.error)
  {
    if !recursive {
      if path in locks {
        r := VerifyLock(locks[path], tokens, user);
      } else {
        r := Ok(());
      }
      return;
    }
    var pending := set q | q in locks && InScope(path, q, true);
    ghost var done: set<string> := {};
    while pending != {}
      invariant pending + done == set q | q in locks && InScope(path, q, true)
      invariant forall q :: q in done ==> VerifyLock(locks[q], tokens, user).Ok?
      decreases pending
    {
      var q :| q in pending;
      var v := VerifyLock(locks[q], tokens, user);
      if v.Err? {
        return v;
      }
      pending, done := pending - {q}, done + {q};
    }
    return Ok(());
  }

  /** Java's String.compareTo order: lexicographic over characters, a prefix first. */
  predicate StrLess(a: string, b: string)
    decreases |a|
  {
    if |a| == 0 then |b| > 0
    else if |b| == 0 then false
    else if a[0] == b[0] then StrLess(a[1..], b[1..])
    else a[0] < b[0]
  }

  lemma {:induction false} StrLessTotal(a: string, b: string)
    requires a != b
    ensures StrLess(a, b) || StrLess(b, a)
    decreases |a|
  {
    if |a| > 0 && |b| > 0 && a[0] == b[0] {
      assert a == [a[0]] + a[1..] && b == [b[0]] + b[1..];
      StrLessTotal(a[1..], b[1..]);
    }
  }

  predicate Sorted(s: seq<string>) {
    forall i :: 0 < i < |s| ==> StrLess(s[i - 1], s[i])
  }

  /** Inserts a new path into a sorted sequence. */
  function Insert(x: string, s: seq<string>): (r: seq<string>)
    requires Sorted(s) && x !in s
    ensures Sorted(r) && |r| == |s| + 1
    ensures (set p | p in r) == (set p | p in s) + {x}
    ensures r[0] == x || r[0] == s[0]
  {
    if s == [] then [x]
    else if StrLess(x, s[0]) then [x] + s
    else
      StrLessTotal(x, s[0]);
      var rest := Insert(x, s[1..]);
      assert s == [s[0]] + s[1..];
      [s[0]] + rest
  }

  /** The changed paths of a transaction in sorted order (Java's Arrays.sort on the key set). */
  method SortPaths(paths: set<string>) returns (s: seq<string>)
    ensures Sorted(s)
    ensures (set p | p in s) == paths
  {
    s := [];
    var rest := paths;
    while rest != {}
      invariant Sorted(s)
      invariant (set p | p in s) + rest == paths
      invariant (set p | p in s) !! rest
      decreases rest
    {
      var x :| x in rest;
      s := Insert(x, s);
      rest := rest - {x};
    }
  }

  /** Every path changed in the transaction has its locks held: the lock on a modified path, every lock at or below any other changed path. */
  ghost predicate AllLocksHeld(changes: map<string, ChangeKind>, locks: map<string, Lock>, user: Option<string>, tokens: set<string>) {
    forall p :: p in changes ==> Covered(locks, p, changes[p] != Modify, user, tokens)
  }

  /** A path below a recursively covered path is covered, whatever its own check would be. */
  lemma CoveredBelow(locks: map<string, Lock>, q: string, p: string, recursive: bool, user: Option<string>, tokens: set<string>)
    requires Covered(locks, q, true, user, tokens) && IsBelow(q, p)
    ensures Covered(locks, p, recursive, user, tokens)
  {
    forall x | x in locks && InScope(p, x, recursive)
      ensures VerifyLock(locks[x], tokens, user).Ok?
    {
      BelowTransitive(q, p, x);
    }
  }

  /**
   * The lock check of a commit: walks the changed paths in sorted order, checks a modified
   * path alone and any other path with everything below it, and skips a path that lies
   * below the last path checked with everything below it.
   */
  method VerifyLocks(changes: map<string, ChangeKind>, locks: map<string, Lock>, user: Option<string>, tokens: set<string>)
    returns (r: Result<(), FsError>)
    ensures r.Ok? <==> AllLocksHeld(changes, locks, user, tokens)
    ensures r.Err? ==> exists q :: q in locks && VerifyLock(locks[q], tokens, user) == r
  {
    var changedPaths := SortPaths(changes.Keys);
    var lastRecursedPath: Option<string> := None;
    for i := 0 to |changedPaths|
      invariant forall k :: 0 <= k < i ==> Covered(locks, changedPaths[k], changes[changedPaths[k]] != Modify, user, tokens)
      invariant lastRecursedPath.Some? ==> Covered(locks, lastRecursedPath.value, true, user, tokens)
    {
      var changedPath := changedPaths[i];
      if lastRecursedPath.Some? && IsBelow(lastRecursedPath.value, changedPath) {
        CoveredBelow(locks, lastRecursedPath.value, changedPath, changes[changedPath] != Modify, user, tokens);
        continue;
      }
      var recurse := changes[changedPath] != Modify;
      var allowed := AllowLockedOperation(locks, changedPath, user, tokens, recurse);
      if allowed.Err? {
        return allowed;
      }
      if recurse {
        lastRecursedPath := Some(changedPath);
      }
    }
    forall p | p in changes
      ensures Covered(locks, p, changes[p] != Modify, user, tokens)
    {
      assert p in set x | x in changedPaths;
    }
    return Ok(());
  }
}
