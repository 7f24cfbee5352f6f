/** From the body a client prints to the operation on the store, and back to what a client notices. */
module RequestMeaning {
  import opened Handlers
  import opened JsonRequest
  import opened JsonRoundTrip
  import opened LockServer
  import opened LockStore
  import opened Wrappers

  /** A printed object as JSON allows it, with names and values the scanner takes verbatim. */
  ghost predicate IsBody(lead: string, ps: seq<Piece>, trail: string) {
    Space(lead) && Space(trail) && DistinctNames(ps) && forall x :: x in ps ==> Printable(x)
  }

  /** The cut name an entry stores. */
  function CutKey(key: string): (r: string) {
    Cut(key, MAX_KEY_LEN)
  }

  function CutLockee(lockee: string): (r: string) {
    Cut(lockee, MAX_LOCKEE_LEN)
  }

  /** The operation behind a printed lock or unlock request: its fields, with the names cut. */
  lemma BodyDecoded(lead: string, ps: seq<Piece>, trail: string, key: string, lockee: string, now: nat)
    requires IsBody(lead, ps, trail) && key != "" && Sees(ps, KeyMember(key)) && Sees(ps, LockeeMember(lockee))
    ensures PostOp(Object(lead, ps, trail), now) == Some(Acquire(CutKey(key), CutLockee(lockee), SeesForce(ps), now))
    ensures UnlockOp(Object(lead, ps, trail)) == Some(Release(CutKey(key), CutLockee(lockee)))
  {
    LockBody(lead, ps, trail, key, lockee);
  }

  /** The plainest way to print a lock or unlock body. */
  function PlainBody(key: string, lockee: string): (s: string) {
    Object("", [Bare(KeyMember(key)), Bare(LockeeMember(lockee))], "")
  }

  lemma PlainDecoded(key: string, lockee: string, now: nat)
    requires key != "" && '"' !in key && '"' !in lockee
    ensures PostOp(PlainBody(key, lockee), now) == Some(Acquire(CutKey(key), CutLockee(lockee), false, now))
    ensures UnlockOp(PlainBody(key, lockee)) == Some(Release(CutKey(key), CutLockee(lockee)))
  {
    var ps := [Bare(KeyMember(key)), Bare(LockeeMember(lockee))];
    BareSeen(key, lockee, []);
    assert ps + [] == ps && !SeesForce(ps);
    BodyDecoded("", ps, "", key, lockee, now);
  }

  /** Which printed bodies are answered with 400: those where no non-empty key or no lockee is seen; an empty lockee will do. */
  lemma BodyRefusedIff(lead: string, ps: seq<Piece>, trail: string, now: nat)
    requires IsBody(lead, ps, trail)
    ensures var b := Object(lead, ps, trail);
      && (PostOp(b, now).None? <==> UnlockOp(b).None?)
      && (PostOp(b, now).None? <==>
            (forall key :: Sees(ps, KeyMember(key)) ==> key == "") || (forall lockee :: !Sees(ps, LockeeMember(lockee))))
  {
    RequestRoundTrip(lead, ps, trail);
    var r := JsonRequest.ParseBody(Object(lead, ps, trail));
    if r.Some? && r.value.lockee.Some? {
      assert Sees(ps, LockeeMember(r.value.lockee.value));
    }
  }

  /** The empty lockee is a lockee like any other: it gets a free key. */
  lemma EmptyLockeeAccepted(s: Store, key: string, now: nat)
    requires key != "" && '"' !in key && CutKey(key) !in s
    ensures var op := PostOp(PlainBody(key, ""), now); op.Some? && Step(s, op.value).1 == Granted(Lock(CutKey(key), "", now))
  {
    PlainDecoded(key, "", now);
  }

  /** A request is carried out under the names it gives exactly if they are short enough for an entry. */
  lemma NamesKeptIff(lead: string, ps: seq<Piece>, trail: string, key: string, lockee: string, now: nat)
    requires IsBody(lead, ps, trail) && key != "" && Sees(ps, KeyMember(key)) && Sees(ps, LockeeMember(lockee))
    ensures var op := PostOp(Object(lead, ps, trail), now);
      op.Some? && (op.value.key == key <==> |key| <= 127) && (op.value.lockee == lockee <==> |lockee| <= 63)
  {
    BodyDecoded(lead, ps, trail, key, lockee, now);
  }

  /** Names that the server cannot tell apart when it keeps `n` bytes. */
  predicate Confused(a: string, b: string, n: nat) {
    a == b || (|a| >= n && |b| >= n && a[..n] == b[..n])
  }

  const KEPT_OF_KEY: nat := MAX_KEY_LEN - 1
  const KEPT_OF_LOCKEE: nat := MAX_LOCKEE_LEN - 1

  lemma CutIsConfused(a: string, b: string)
    ensures CutKey(a) == CutKey(b) <==> Confused(a, b, KEPT_OF_KEY)
    ensures CutLockee(a) == CutLockee(b) <==> Confused(a, b, KEPT_OF_LOCKEE)
  {
    CutCollides(a, b, MAX_KEY_LEN);
    CutCollides(a, b, MAX_LOCKEE_LEN);
  }

  /** The store once `x` has locked the free key `a`. */
  function Locked(s: Store, a: string, x: string, now: nat): (s': Store) {
    Step(s, Acquire(CutKey(a), CutLockee(x), false, now)).0
  }

  /**
   A lock of `x` on `a` stands in the way of an unforced lock of `y` on `b` exactly if the keys are
   confused and the lockees are not.
   */
  lemma BlockedIff(s: Store, a: string, x: string, b: string, y: string, now: nat, later: nat)
    requires Keyed(s) && CutKey(a) !in s
    ensures var reply := Step(Locked(s, a, x, now), Acquire(CutKey(b), CutLockee(y), false, later)).1;
      reply == Conflict(Lock(CutKey(a), CutLockee(x), now))
      <==> Confused(a, b, KEPT_OF_KEY) && !Confused(x, y, KEPT_OF_LOCKEE)
  {
    CutIsConfused(a, b);
    CutIsConfused(x, y);
  }

  /** Who shares the lock of `x`: `y` is granted it, and can release it, exactly if the lockees are confused. */
  lemma SharedIff(s: Store, a: string, x: string, y: string, now: nat, later: nat)
    requires CutKey(a) !in s
    ensures Step(Locked(s, a, x, now), Acquire(CutKey(a), CutLockee(y), false, later)).1.Granted?
            <==> Confused(x, y, KEPT_OF_LOCKEE)
    ensures Step(Locked(s, a, x, now), Release(CutKey(a), CutLockee(y))).1 == Unlocked(Released)
            <==> Confused(x, y, KEPT_OF_LOCKEE)
  {
    CutIsConfused(x, y);
  }

  /** Two different names that are one when `n` bytes are kept. */
  lemma ConfusedPair(n: nat) returns (a: string, b: string)
    ensures a != b && Confused(a, b, n) && '"' !in a && '"' !in b && a != "" && b != ""
  {
    var stem := seq(n, _ => 'k');
    a, b := stem + "1", stem + "2";
    assert a[n] == '1' && b[n] == '2';
    assert a[..n] == stem == b[..n];
  }

  /** Two printed lock requests for different keys, of which the first refuses the second to everybody else. */
  lemma LongKeysShareALock(x: string, y: string, now: nat, later: nat) returns (a: string, b: string)
    requires !Confused(x, y, KEPT_OF_LOCKEE) && '"' !in x && '"' !in y
    ensures a != b && PostOp(PlainBody(a, x), now).Some? && PostOp(PlainBody(b, y), later).Some?
    ensures var first, second := PostOp(PlainBody(a, x), now).value, PostOp(PlainBody(b, y), later).value;
      Step(Step(map[], first).0, second).1.Conflict?
  {
    a, b := ConfusedPair(KEPT_OF_KEY);
    PlainDecoded(a, x, now);
    PlainDecoded(b, y, later);
    BlockedIff(map[], a, x, b, y, now, later);
  }

  /** Printed requests of two different lockees that hold one lock together, so that mutual exclusion between them is lost. */
  lemma LongLockeesShareALock(key: string, now: nat, later: nat) returns (x: string, y: string)
    requires key != "" && '"' !in key
    ensures x != y && PostOp(PlainBody(key, x), now).Some?
    ensures PostOp(PlainBody(key, y), later).Some? && UnlockOp(PlainBody(key, y)).Some?
    ensures var held := Step(map[], PostOp(PlainBody(key, x), now).value).0;
      && Step(held, PostOp(PlainBody(key, y), later).value).1.Granted?
      && Step(held, UnlockOp(PlainBody(key, y)).value).1 == Unlocked(Released)
  {
    x, y := ConfusedPair(KEPT_OF_LOCKEE);
    PlainDecoded(key, x, now);
    PlainDecoded(key, y, later);
    SharedIff(map[], key, x, y, now, later);
  }
}
