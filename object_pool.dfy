/**
 * The object pool: `capacity` objects created up front, handed out from a
 * free stack and pushed back when their last owner lets go. An object is
 * named by its position in the pool's storage (0 .. capacity-1); the wait
 * for a free object becomes the precondition that one is free.
 */
module ObjectPooling {

  /** No object sits on the free stack twice. */
  predicate Distinct(s: seq<nat>)
  {
    forall i, j :: 0 <= i < j < |s| ==> s[i] != s[j]
  }

  class Pool {
    /** `storage_.size()`: fixed once the constructor has run. */
    const capacity: nat
    /** `freeStack_`, bottom first; the top is the last element. */
    var freeStack: seq<nat>
    /** The objects currently handed out (held by some `shared_ptr`). */
    ghost var out: set<nat>

    /**
     * Every object is either free or handed out, never both and never
     * twice; so `available()` plus the objects in use is the capacity.
     */
    ghost predicate Valid()
      reads this
    {
      Distinct(freeStack) &&
      (forall i :: 0 <= i < |freeStack| ==> freeStack[i] < capacity) &&
      (forall o :: o in out ==> o < capacity && o !in freeStack) &&
      (forall o: nat :: o < capacity ==> o in out || o in freeStack) &&
      |freeStack| + |out| == capacity
    }

    /** `ObjectPool(size)`: objects 0 .. size-1 pushed in storage order. */
    constructor (size: nat)
      ensures Valid() && capacity == size && out == {}
      ensures freeStack == seq(size, i => i)
    {
      capacity := size;
      out := {};
      var stack := [];
      var i := 0;
      while i < size
        invariant 0 <= i <= size
        invariant stack == seq(i, j => j)
      {
        stack := stack + [i];
        i := i + 1;
      }
      freeStack := stack;
      forall o: nat | o < size
        ensures o in stack
      {
        assert stack[o] == o;
      }
    }

    /** `acquire()`, once the free stack is non-empty: pops its top. */
    method Acquire() returns (obj: nat)
      requires Valid() && |freeStack| > 0
      modifies this`freeStack, this`out
      ensures Valid()
      ensures obj == old(freeStack[|freeStack| - 1]) && obj !in old(out)
      ensures freeStack == old(freeStack[..|freeStack| - 1])
      ensures out == old(out) + {obj}
    {
      obj := freeStack[|freeStack| - 1];
      freeStack := freeStack[..|freeStack| - 1];
      out := out + {obj};
    }

    /** `release(obj)`, run by the deleter of a handed-out object: pushes it back. */
    method Release(obj: nat)
      requires Valid() && obj in out
      modifies this`freeStack, this`out
      ensures Valid()
      ensures freeStack == old(freeStack) + [obj]
      ensures out == old(out) - {obj}
    {
      freeStack := freeStack + [obj];
      out := out - {obj};
    }

    /** `available()`: the free objects, which is the capacity less those in use. */
    method Available() returns (n: nat)
      requires Valid()
      ensures n == |freeStack| && n + |out| == capacity && n <= capacity
    {
      n := |freeStack|;
    }

    /** `capacity()`: the number of objects the pool was built with. */
    method Capacity() returns (n: nat)
      requires Valid()
      ensures n == capacity && n == |freeStack| + |out|
    {
      n := capacity;
    }
  }

  /**
   * The pool is last-in first-out: an object released and then acquired
   * again straight away comes back to the same caller.
   */
  method ReleaseThenAcquire(pool: Pool, obj: nat) returns (again: nat)
    requires pool.Valid() && obj in pool.out
    modifies pool
    ensures pool.Valid() && again == obj
    ensures pool.freeStack == old(pool.freeStack) && pool.out == old(pool.out)
  {
    pool.Release(obj);
    again := pool.Acquire();
  }

  /**
   * The single-threaded test: a pool of three, two objects acquired, then
   * both released as their owners go out of scope (the later one first).
   */
  method SingleThreadTest() returns (initially: nat, whileHeld: nat, finally: nat, restored: bool)
    ensures initially == 3 && whileHeld == 1 && finally == 3 && restored
  {
    var pool := new Pool(3);
    initially := pool.Available();
    var r1 := pool.Acquire();
    var r2 := pool.Acquire();
    whileHeld := pool.Available();
    pool.Release(r2);
    pool.Release(r1);
    finally := pool.Available();
    restored := pool.freeStack == [0, 1, 2];
  }

  /**
   * The multi-threaded test with its threads run one after another: ten
   * workers, each acquiring and dropping an object fifty times, leave every
   * object free again.
   */
  method MultiThreadTest() returns (available: nat, capacity: nat)
    ensures available == capacity == 5
  {
    var pool := new Pool(5);
    var worker := 0;
    while worker < 10
      invariant pool.Valid() && pool.out == {} && pool.capacity == 5
    {
      var j := 0;
      while j < 50
        invariant pool.Valid() && pool.out == {} && pool.capacity == 5
      {
        var obj := pool.Acquire();
        pool.Release(obj);
        j := j + 1;
      }
      worker := worker + 1;
    }
    available := pool.Available();
    capacity := pool.Capacity();
  }
}
