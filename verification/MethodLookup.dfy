/** Message dictionaries, the superclass chain, and the method cache. Object pointers are
    unsigned numbers here, since their bits are used for hashing. */
module MethodLookup {
  import opened Basics
  import C = ContextSpec
  import L = ContextLayout

  const DOES_NOT_UNDERSTAND: nat := 42

  // ---------- arithmetic on the bits of oops ----------

  function BitAnd(a: nat, b: nat): (r: nat)
    ensures r <= a && r <= b
  {
    if a == 0 || b == 0 then 0
    else 2 * BitAnd(a / 2, b / 2) + (if a % 2 == 1 && b % 2 == 1 then 1 else 0)
  }

  function Hash(oop: nat): nat { oop / 2 }

  // ---------- dictionaries ----------

  const SELECTOR_START := 2

  /** A message dictionary: parallel tables of selectors and methods. */
  datatype Dictionary = Dictionary(selectors: seq<nat>, methods: seq<nat>)

  predicate IsDictionary(d: Dictionary) { 0 < |d.selectors| <= |d.methods| }

  /** Where the search for a selector starts. */
  function Start(d: Dictionary, selector: nat): (i: nat)
    requires IsDictionary(d)
    ensures i < |d.selectors|
  {
    BitAnd(|d.selectors| - 1, Hash(selector))
  }

  /** The slot `n` steps on from slot i, going round. */
  function Slot(d: Dictionary, i: nat, n: nat): (s: nat)
    requires IsDictionary(d) && i < |d.selectors| && n < |d.selectors|
    ensures s < |d.selectors|
  {
    if i + n < |d.selectors| then i + n else i + n - |d.selectors|
  }

  /** Slot s holds the selector, and no slot from the start to s is empty or holds
      it already. */
  ghost predicate Holds(d: Dictionary, selector: nat, n: nat) {
    && IsDictionary(d) && n < |d.selectors|
    && d.selectors[Slot(d, Start(d, selector), n)] == selector
    && forall k | 0 <= k < n :: Passed(d, selector, k)
  }

  predicate Passed(d: Dictionary, selector: nat, k: nat)
    requires IsDictionary(d) && k < |d.selectors|
  {
    var s := d.selectors[Slot(d, Start(d, selector), k)];
    s != NIL && s != selector
  }

  /** What a dictionary answers for a selector. */
  ghost function InDictionary(d: Dictionary, selector: nat): Option<nat>
    requires IsDictionary(d)
  {
    if selector != NIL && exists n: nat :: Holds(d, selector, n) then
      var n: nat :| Holds(d, selector, n);
      Some(d.methods[Slot(d, Start(d, selector), n)])
    else None
  }

  lemma HoldsOnce(d: Dictionary, selector: nat, m: nat, n: nat)
    requires Holds(d, selector, m) && Holds(d, selector, n)
    ensures m == n
  {
    assert m < n ==> Passed(d, selector, m);
    assert n < m ==> Passed(d, selector, n);
  }

  predicate DistinctKeys(d: Dictionary) {
    forall i, j | 0 <= i < j < |d.selectors| && d.selectors[i] != NIL :: d.selectors[i] != d.selectors[j]
  }

  /** How far slot i is from the slot where the search for its selector starts. */
  function Distance(d: Dictionary, selector: nat, i: nat): (n: nat)
    requires IsDictionary(d) && i < |d.selectors|
    ensures n < |d.selectors| && Slot(d, Start(d, selector), n) == i
  {
    var start := Start(d, selector);
    if start <= i then i - start else i + |d.selectors| - start
  }

  /** Every key can be reached: no empty slot lies between the slot its hash names
      and its position. */
  ghost predicate NoGaps(d: Dictionary)
    requires IsDictionary(d)
  {
    forall i, k | 0 <= i < |d.selectors| && d.selectors[i] != NIL && 0 <= k < Distance(d, d.selectors[i], i) ::
      d.selectors[Slot(d, Start(d, d.selectors[i]), k)] != NIL
  }

  /** The finite map from selectors to methods that such a dictionary stands for. */
  ghost function AsMap(d: Dictionary): map<nat, nat>
    requires IsDictionary(d) && DistinctKeys(d)
  {
    map i | 0 <= i < |d.selectors| && d.selectors[i] != NIL :: d.selectors[i] := d.methods[i]
  }

  /** On a dictionary with distinct keys and no gaps, the search is the map. */
  lemma SearchIsMap(d: Dictionary, selector: nat)
    requires IsDictionary(d) && DistinctKeys(d) && NoGaps(d) && selector != NIL
    ensures InDictionary(d, selector) == if selector in AsMap(d) then Some(AsMap(d)[selector]) else None
  {
    if selector in AsMap(d) {
      var i :| 0 <= i < |d.selectors| && d.selectors[i] == selector;
      var n := Distance(d, selector, i);
      forall k | 0 <= k < n
        ensures Passed(d, selector, k)
      {
        assert Slot(d, Start(d, selector), k) != i;
      }
      assert Holds(d, selector, n);
      var m: nat :| Holds(d, selector, m)
        && InDictionary(d, selector) == Some(d.methods[Slot(d, Start(d, selector), m)]);
      HoldsOnce(d, selector, m, n);
    } else {
      forall n: nat
        ensures !Holds(d, selector, n)
      {
        assert IsDictionary(d) && n < |d.selectors| ==>
          d.selectors[Slot(d, Start(d, selector), n)] == NIL
          || d.selectors[Slot(d, Start(d, selector), n)] in AsMap(d);
      }
    }
  }

  lemma Found(d: Dictionary, selector: nat, n: nat)
    requires selector != NIL && Holds(d, selector, n)
    ensures InDictionary(d, selector) == Some(d.methods[Slot(d, Start(d, selector), n)])
  {
    var m: nat :| Holds(d, selector, m) && InDictionary(d, selector) == Some(d.methods[Slot(d, Start(d, selector), m)]);
    HoldsOnce(d, selector, m, n);
  }

  /** A search that meets an empty slot, or has been everywhere, finds nothing. */
  lemma NotFound(d: Dictionary, selector: nat, n: nat)
    requires IsDictionary(d) && n <= |d.selectors|
    requires forall k | 0 <= k < n :: Passed(d, selector, k)
    requires n == |d.selectors| || d.selectors[Slot(d, Start(d, selector), n)] == NIL
    ensures InDictionary(d, selector) == None
  {
    forall m: nat
      ensures selector == NIL || !Holds(d, selector, m)
    {
      assert m < n ==> Passed(d, selector, m);
      assert n < m && Holds(d, selector, m) ==> Passed(d, selector, n);
    }
  }

  // ---------- where the search goes, by numbers ----------

  lemma {:induction false} BitsOfAnd(a: nat, b: nat, i: nat)
    ensures BitAnd(a, b) / C.Pow2(i) % 2 == 1 <==> a / C.Pow2(i) % 2 == 1 && b / C.Pow2(i) % 2 == 1
    decreases i
  {
    if i == 0 {
      LowestBit(a, b);
    } else {
      hide BitAnd, C.Pow2;
      BitsOfAnd(a / 2, b / 2, i - 1);
      HalfOfAnd(a, b);
      HalfTheBit(BitAnd(a, b), i);
      HalfTheBit(a, i);
      HalfTheBit(b, i);
    }
  }

  lemma LowestBit(a: nat, b: nat)
    ensures C.Pow2(0) == 1
    ensures BitAnd(a, b) % 2 == 1 <==> a % 2 == 1 && b % 2 == 1
  {
  }

  lemma HalfOfAnd(a: nat, b: nat)
    ensures BitAnd(a, b) / 2 == BitAnd(a / 2, b / 2)
  {
  }

  lemma HalfTheBit(a: nat, i: nat)
    requires 0 < i
    ensures a / C.Pow2(i) == a / 2 / C.Pow2(i - 1)
  {
    var p := C.Pow2(i - 1);
    var q := a / 2 / p;
    assert a / 2 == q * p + a / 2 % p by { Division(a / 2, p); }
    assert C.Pow2(i) == 2 * p;
    Quotient(a, 2 * p, q);
  }

  lemma AndWithOnes(p: nat, b: nat)
    requires 0 < p
    ensures BitAnd(2 * p - 1, b) == 2 * BitAnd(p - 1, b / 2) + b % 2
  {
    assert (2 * p - 1) / 2 == p - 1 && (2 * p - 1) % 2 == 1;
  }

  lemma HalfTheRemainder(p: nat, b: nat)
    requires 0 < p
    ensures b % (2 * p) == 2 * (b / 2 % p) + b % 2
  {
    var q, r := b / 2 / p, b / 2 % p;
    Division(b / 2, p);
    assert b == q * (2 * p) + (2 * r + b % 2) by {
      assert b == 2 * (q * p + r) + b % 2;
      assert 2 * (q * p) == q * (2 * p);
    }
    Remainder(b, 2 * p, q, 2 * r + b % 2);
  }

  /** A mask of ones is a remainder. */
  lemma {:induction false} MaskIsRemainder(k: nat, b: nat)
    ensures BitAnd(C.Pow2(k) - 1, b) == b % C.Pow2(k)
    decreases k
  {
    if k > 0 {
      var p := C.Pow2(k - 1);
      MaskIsRemainder(k - 1, b / 2);
      assert C.Pow2(k) == 2 * p;
      hide BitAnd, C.Pow2;
      AndWithOnes(p, b);
      HalfTheRemainder(p, b);
    }
  }

  /** Dictionaries have a power of two of slots; the search starts at half the selector's
      pointer, taken modulo the number of slots, and goes up, round the end. */
  lemma SlotByNumbers(d: Dictionary, selector: nat, k: nat, n: nat)
    requires IsDictionary(d) && |d.selectors| == C.Pow2(k) && n < |d.selectors|
    ensures Start(d, selector) == selector / 2 % |d.selectors|
    ensures Slot(d, Start(d, selector), n) == (selector / 2 + n) % |d.selectors|
  {
    var a, size := selector / 2, |d.selectors|;
    MaskIsRemainder(k, a);
    Division(a, size);
    if a % size + n < size {
      Remainder(a + n, size, a / size, a % size + n);
    } else {
      assert (a / size + 1) * size == a / size * size + size;
      Remainder(a + n, size, a / size + 1, a % size + n - size);
    }
  }

  /** What stands `n` slots after half the selector's pointer, modulo the number of slots. */
  function Met(d: Dictionary, selector: nat, n: nat): nat
    requires IsDictionary(d)
  {
    d.selectors[(selector / 2 + n) % |d.selectors|]
  }

  /** The search by numbers, every case of it: the first of those slots that is nil or holds
      the selector decides. */
  lemma SearchByNumbers(d: Dictionary, selector: nat, k: nat, n: nat)
    requires IsDictionary(d) && |d.selectors| == C.Pow2(k) && n <= |d.selectors|
    requires forall j: nat | j < n :: Met(d, selector, j) != 2 && Met(d, selector, j) != selector
    ensures n == |d.selectors| || Met(d, selector, n) == 2 ==> InDictionary(d, selector) == None
    ensures n < |d.selectors| && Met(d, selector, n) == selector != 2 ==>
              InDictionary(d, selector) == Some(d.methods[(selector / 2 + n) % |d.selectors|])
  {
    MetIsSlot(d, selector, k);
    if n < |d.selectors| {
      SlotByNumbers(d, selector, k, n);
    }
    hide Start, Slot, InDictionary, Met, C.Pow2;
    if n == |d.selectors| || Met(d, selector, n) == 2 {
      NotFound(d, selector, n);
    } else if Met(d, selector, n) == selector {
      Found(d, selector, n);
    }
  }

  lemma MetIsSlot(d: Dictionary, selector: nat, k: nat)
    requires IsDictionary(d) && |d.selectors| == C.Pow2(k)
    ensures forall j: nat | j < |d.selectors| ::
              Met(d, selector, j) == d.selectors[Slot(d, Start(d, selector), j)]
  {
    forall j: nat | j < |d.selectors|
      ensures Met(d, selector, j) == d.selectors[Slot(d, Start(d, selector), j)]
    {
      SlotByNumbers(d, selector, k, j);
    }
  }

  /** Slot i is met some slots on from where the search for its key starts, with no nil before. */
  ghost predicate CanBeMet(d: Dictionary, i: nat)
    requires IsDictionary(d) && i < |d.selectors|
  {
    exists n: nat | n < |d.selectors| ::
      Met(d, d.selectors[i], n) == d.selectors[i] && forall j: nat | j < n :: Met(d, d.selectors[i], j) != 2
  }

  ghost predicate NoneSkipped(d: Dictionary, i: nat)
    requires IsDictionary(d) && i < |d.selectors|
  {
    forall k | 0 <= k < Distance(d, d.selectors[i], i) ::
      d.selectors[Slot(d, Start(d, d.selectors[i]), k)] != NIL
  }

  lemma KeyMet(d: Dictionary, i: nat, k: nat)
    requires IsDictionary(d) && DistinctKeys(d) && |d.selectors| == C.Pow2(k)
    requires i < |d.selectors| && d.selectors[i] != 2
    ensures NoneSkipped(d, i) <==> CanBeMet(d, i)
  {
    var selector := d.selectors[i];
    MetIsSlot(d, selector, k);
    var n := Distance(d, selector, i);
    assert Met(d, selector, n) == selector;
    forall m: nat | m < |d.selectors| && Met(d, selector, m) == selector
      ensures m == n
    {
      assert d.selectors[Slot(d, Start(d, selector), m)] == selector;
      assert Slot(d, Start(d, selector), m) == i;
    }
    hide Met, Start, C.Pow2, Distance;
  }

  /** No gaps, by numbers. */
  lemma NoGapsByNumbers(d: Dictionary, k: nat)
    requires IsDictionary(d) && DistinctKeys(d) && |d.selectors| == C.Pow2(k)
    ensures NoGaps(d) <==> forall i | 0 <= i < |d.selectors| && d.selectors[i] != 2 :: CanBeMet(d, i)
  {
    assert NoGaps(d) <==> forall i | 0 <= i < |d.selectors| && d.selectors[i] != 2 :: NoneSkipped(d, i);
    forall i | 0 <= i < |d.selectors| && d.selectors[i] != 2
      ensures NoneSkipped(d, i) <==> CanBeMet(d, i)
    {
      KeyMet(d, i, k);
    }
    hide *;
  }

  // ---------- methods and classes ----------

  /** The header of a method, and its extension (used if the flag is 7). */
  datatype Header = Header(header: nat, extension: nat)

  /** `primitiveIndexOf:`. */
  function PrimitiveIndexOf(h: Header): nat {
    if C.ExtractBits(0, 2, h.header) == 7 then C.ExtractBits(7, 14, h.extension) else 0
  }

  datatype Class = Class(superclass: nat, dictionary: Dictionary)

  /** Superclass chains end at nil: each step goes to a class of smaller depth. */
  ghost predicate WellFounded(classes: map<nat, Class>, depth: map<nat, nat>) {
    && NIL !in classes && depth.Keys == classes.Keys
    && forall c | c in classes ::
         && IsDictionary(classes[c].dictionary)
         && (classes[c].superclass == NIL ||
             (classes[c].superclass in classes && depth[classes[c].superclass] < depth[c]))
  }

  /** The method a class understands a selector by: its own, or inherited. */
  ghost function Understood(classes: map<nat, Class>, depth: map<nat, nat>, cls: nat, selector: nat): Option<nat>
    requires WellFounded(classes, depth) && (cls in classes || cls == NIL)
    decreases if cls in classes then depth[cls] + 1 else 0
  {
    if cls == NIL then None
    else
      var own := InDictionary(classes[cls].dictionary, selector);
      if own.Some? then own else Understood(classes, depth, classes[cls].superclass, selector)
  }

  /** The selector that is really sent: doesNotUnderstand: if the class does not
      understand the one asked for. */
  ghost function Sent(classes: map<nat, Class>, depth: map<nat, nat>, cls: nat, selector: nat): nat
    requires WellFounded(classes, depth) && cls in classes
  {
    if Understood(classes, depth, cls, selector).Some? then selector else DOES_NOT_UNDERSTAND
  }

  // ---------- the same without recursion ----------

  /** Bits 7 to 14 of the extension if the first three bits of the header are ones. */
  lemma PrimitiveByNumbers(h: Header)
    ensures PrimitiveIndexOf(h) == if h.header / 8192 % 8 == 7 then h.extension / 2 % 256 else 0
  {
    L.PowersOfTwo();
  }

  /** Classes, each the superclass of the one before. */
  predicate Line(classes: map<nat, Class>, path: seq<nat>) {
    && path != [] && (forall i | 0 <= i < |path| :: path[i] in classes)
    && forall i | 0 < i < |path| :: path[i] == classes[path[i - 1]].superclass
  }

  /** The classes before the last have no method of their own; the last has one, or is
      the top of the line. */
  ghost predicate Decides(classes: map<nat, Class>, path: seq<nat>, selector: nat)
    requires Line(classes, path) && forall c | c in classes :: IsDictionary(classes[c].dictionary)
  {
    && (forall i | 0 <= i < |path| - 1 :: InDictionary(classes[path[i]].dictionary, selector) == None)
    && var last := classes[path[|path| - 1]];
       InDictionary(last.dictionary, selector) != None || last.superclass == 2
  }

  /** A class understands a selector by the method of the nearest class up its line that
      has one, and by none if there is no such class. */
  lemma {:induction false} NearestMethod(classes: map<nat, Class>, depth: map<nat, nat>, path: seq<nat>, selector: nat)
    requires WellFounded(classes, depth) && Line(classes, path) && Decides(classes, path, selector)
    ensures Understood(classes, depth, path[0], selector)
            == InDictionary(classes[path[|path| - 1]].dictionary, selector)
    ensures Sent(classes, depth, path[0], selector)
            == if InDictionary(classes[path[|path| - 1]].dictionary, selector) != None then selector else 42
    decreases |path|
  {
    hide InDictionary, DistinctKeys;
    if |path| > 1 {
      assert InDictionary(classes[path[0]].dictionary, selector) == None;
      assert Line(classes, path[1..]);
      NearestMethod(classes, depth, path[1..], selector);
      assert path[1] == classes[path[0]].superclass;
    } else if classes[path[0]].superclass == 2 {
      assert Understood(classes, depth, NIL, selector) == None;
    }
  }

  /** There is such a line for every class. */
  lemma {:induction false} LineDecides(classes: map<nat, Class>, depth: map<nat, nat>, cls: nat, selector: nat)
    returns (path: seq<nat>)
    requires WellFounded(classes, depth) && cls in classes
    ensures Line(classes, path) && path[0] == cls && Decides(classes, path, selector)
    decreases depth[cls]
  {
    hide InDictionary;
    var own := InDictionary(classes[cls].dictionary, selector);
    if own != None || classes[cls].superclass == 2 {
      path := [cls];
    } else {
      var rest := LineDecides(classes, depth, classes[cls].superclass, selector);
      path := [cls] + rest;
      forall i | 0 < i < |path|
        ensures path[i] == classes[path[i - 1]].superclass
      {
        assert path[i] == rest[i - 1] && (i > 1 ==> path[i - 1] == rest[i - 2]);
      }
      forall i | 0 <= i < |path| - 1
        ensures InDictionary(classes[path[i]].dictionary, selector) == None
      {
        assert i > 0 ==> path[i] == rest[i - 1];
      }
      assert path[|path| - 1] == rest[|rest| - 1];
    }
  }

  // ---------- the cache ----------

  const CACHE_SIZE := 1024
  const CACHE_ENTRIES := 256

  /** The methods of a dictionary have known headers. */
  ghost predicate HeadersKnown(d: Dictionary, headers: map<nat, Header>)
    requires IsDictionary(d)
  {
    forall i | 0 <= i < |d.selectors| && d.selectors[i] != NIL :: d.methods[i] in headers
  }

  ghost predicate MethodsKnown(classes: map<nat, Class>, headers: map<nat, Header>) {
    forall c | c in classes :: IsDictionary(classes[c].dictionary) && HeadersKnown(classes[c].dictionary, headers)
  }

  /** Everything a cache entry may claim: its class understands its selector by its
      method, and its primitive index is that method's. */
  ghost predicate EntrySound(classes: map<nat, Class>, depth: map<nat, nat>, headers: map<nat, Header>,
                             selector: nat, cls: nat, newMethod: nat, primitiveIndex: nat)
    requires WellFounded(classes, depth)
  {
    cls != NIL ==>
      && cls in classes && Understood(classes, depth, cls, selector) == Some(newMethod)
      && newMethod in headers && primitiveIndex == PrimitiveIndexOf(headers[newMethod])
  }

  ghost predicate Sound(classes: map<nat, Class>, depth: map<nat, nat>, headers: map<nat, Header>, cache: seq<nat>)
    requires WellFounded(classes, depth) && |cache| == CACHE_SIZE
  {
    forall e | 0 <= e < CACHE_ENTRIES ::
      EntrySound(classes, depth, headers, cache[4 * e], cache[4 * e + 1], cache[4 * e + 2], cache[4 * e + 3])
  }

  lemma {:induction false} UnderstoodIsKnown(classes: map<nat, Class>, depth: map<nat, nat>, headers: map<nat, Header>,
                                             cls: nat, selector: nat)
    requires WellFounded(classes, depth) && MethodsKnown(classes, headers) && (cls in classes || cls == NIL)
    ensures Understood(classes, depth, cls, selector).Some? ==>
              Understood(classes, depth, cls, selector).value in headers
    decreases if cls in classes then depth[cls] + 1 else 0
  {
    if cls != NIL {
      UnderstoodIsKnown(classes, depth, headers, classes[cls].superclass, selector);
    }
  }

  /** Storing one sound entry keeps the cache sound. */
  lemma SoundStored(classes: map<nat, Class>, depth: map<nat, nat>, headers: map<nat, Header>,
                    before: seq<nat>, after: seq<nat>, entry: nat)
    requires WellFounded(classes, depth) && |before| == |after| == CACHE_SIZE && entry < CACHE_ENTRIES
    requires Sound(classes, depth, headers, before)
    requires forall i | 0 <= i < CACHE_SIZE && !(4 * entry <= i < 4 * entry + 4) :: after[i] == before[i]
    requires EntrySound(classes, depth, headers, after[4 * entry], after[4 * entry + 1],
                        after[4 * entry + 2], after[4 * entry + 3])
    ensures Sound(classes, depth, headers, after)
  {
    hide EntrySound, WellFounded;
    forall e | 0 <= e < CACHE_ENTRIES
      ensures EntrySound(classes, depth, headers, after[4 * e], after[4 * e + 1], after[4 * e + 2], after[4 * e + 3])
    {
      assert e != entry ==>
        EntrySound(classes, depth, headers, before[4 * e], before[4 * e + 1], before[4 * e + 2], before[4 * e + 3]);
    }
  }

  class MethodFinder {
    /** What the lookup reads of object memory: classes and method headers. */
    var classes: map<nat, Class>
    var headers: map<nat, Header>
    ghost var depth: map<nat, nat>

    // registers
    var messageSelector: nat
    var argumentCount: nat
    var newMethod: nat
    var primitiveIndex: nat
    const methodCache: array<nat>

    ghost predicate Valid()
      reads this
    {
      WellFounded(classes, depth) && MethodsKnown(classes, headers) && methodCache.Length == CACHE_SIZE
    }

    ghost predicate CacheSound()
      requires Valid()
      reads this, methodCache
    {
      Sound(classes, depth, headers, methodCache[..])
    }

    constructor (classes: map<nat, Class>, headers: map<nat, Header>, ghost depth: map<nat, nat>)
      requires WellFounded(classes, depth) && MethodsKnown(classes, headers)
      ensures Valid() && CacheSound() && fresh(methodCache)
      ensures this.classes == classes && this.headers == headers && this.depth == depth
    {
      this.classes, this.headers, this.depth := classes, headers, depth;
      methodCache := new nat[CACHE_SIZE];
      messageSelector, argumentCount, newMethod, primitiveIndex := NIL, 0, NIL, 0;
      new;
      InitializeMethodCache();
    }

    /** Looks in one dictionary; a full dictionary ends the search too. */
    method LookupMethodInDictionary(d: Dictionary) returns (found: bool)
      requires IsDictionary(d) && HeadersKnown(d, headers)
      modifies this`newMethod, this`primitiveIndex
      ensures found <==> InDictionary(d, messageSelector).Some?
      ensures found ==> InDictionary(d, messageSelector) == Some(newMethod) && newMethod in headers
                        && primitiveIndex == PrimitiveIndexOf(headers[newMethod])
      ensures !found ==> newMethod == old(newMethod) && primitiveIndex == old(primitiveIndex)
    {
      var length := |d.selectors| + SELECTOR_START;
      var index := BitAnd(length - SELECTOR_START - 1, Hash(messageSelector)) + SELECTOR_START;
      var wrapAround := false;
      ghost var start, slots := Start(d, messageSelector), |d.selectors|;
      ghost var n := 0;
      while true
        invariant SELECTOR_START <= index < length
        invariant index - SELECTOR_START + (if wrapAround then slots else 0) == start + n
        invariant forall k | 0 <= k < n && k < slots :: Passed(d, messageSelector, k)
        invariant newMethod == old(newMethod) && primitiveIndex == old(primitiveIndex)
        decreases 2 * slots - n
      {
        var nextSelector := d.selectors[index - SELECTOR_START];
        assert n < slots ==> Slot(d, start, n) == index - SELECTOR_START;
        assert n >= slots ==>
          Slot(d, start, n - slots) == index - SELECTOR_START && Passed(d, messageSelector, n - slots);
        if nextSelector == NIL {
          NotFound(d, messageSelector, n);
          return false;
        }
        if nextSelector == messageSelector {
          Found(d, messageSelector, n);
          newMethod := d.methods[index - SELECTOR_START];
          primitiveIndex := PrimitiveIndexOf(headers[newMethod]);
          return true;
        }
        index := index + 1;
        n := n + 1;
        if index == length {
          if wrapAround {
            NotFound(d, messageSelector, slots);
            return false;
          }
          wrapAround := true;
          index := SELECTOR_START;
        }
      }
    }

    /** Looks along the superclass chain; a selector nobody understands turns into
        doesNotUnderstand: with one argument. */
    method LookupMethodInClass(cls: nat)
      requires Valid() && cls in classes
      requires Understood(classes, depth, cls, DOES_NOT_UNDERSTAND).Some?
      modifies this`messageSelector, this`argumentCount, this`newMethod, this`primitiveIndex
      ensures messageSelector == Sent(classes, depth, cls, old(messageSelector))
      ensures argumentCount == if messageSelector == old(messageSelector) then old(argumentCount) else 1
      ensures Understood(classes, depth, cls, messageSelector) == Some(newMethod)
      ensures newMethod in headers && primitiveIndex == PrimitiveIndexOf(headers[newMethod])
      decreases if messageSelector == DOES_NOT_UNDERSTAND then 0 else 1
    {
      var currentClass := cls;
      while currentClass != NIL
        invariant currentClass in classes || currentClass == NIL
        invariant Understood(classes, depth, currentClass, messageSelector)
                  == Understood(classes, depth, cls, messageSelector)
        invariant messageSelector == old(messageSelector) && argumentCount == old(argumentCount)
        decreases if currentClass in classes then depth[currentClass] + 1 else 0
      {
        var found := LookupMethodInDictionary(classes[currentClass].dictionary);
        if found {
          return;
        }
        currentClass := classes[currentClass].superclass;
      }
      argumentCount := 1;
      messageSelector := DOES_NOT_UNDERSTAND;
      LookupMethodInClass(cls);
    }

    /** An empty cache is sound whatever the classes are. */
    method InitializeMethodCache()
      requires Valid()
      modifies methodCache
      ensures CacheSound()
    {
      for i := 0 to CACHE_SIZE
        invariant forall j | 0 <= j < i :: methodCache[j] == NIL
      {
        methodCache[i] := NIL;
      }
    }

    lemma EntryIsSound(entry: nat)
      requires Valid() && CacheSound() && entry < CACHE_ENTRIES
      ensures EntrySound(classes, depth, headers, methodCache[4 * entry], methodCache[4 * entry + 1],
                         methodCache[4 * entry + 2], methodCache[4 * entry + 3])
    {
      hide EntrySound, WellFounded, MethodsKnown;
      assert EntrySound(classes, depth, headers, methodCache[..][4 * entry], methodCache[..][4 * entry + 1],
                        methodCache[..][4 * entry + 2], methodCache[..][4 * entry + 3]);
    }

    /** Stores what was found in one entry of the cache. */
    method StoreEntry(entry: nat, cls: nat)
      requires Valid() && CacheSound() && entry < CACHE_ENTRIES
      requires EntrySound(classes, depth, headers, messageSelector, cls, newMethod, primitiveIndex)
      modifies methodCache
      ensures CacheSound()
    {
      hide EntrySound, WellFounded, MethodsKnown, Sound;
      ghost var before := methodCache[..];
      var hash := entry * 4;
      methodCache[hash] := messageSelector;
      methodCache[hash + 1] := cls;
      methodCache[hash + 2] := newMethod;
      methodCache[hash + 3] := primitiveIndex;
      SoundStored(classes, depth, headers, before, methodCache[..], entry);
    }

    /** With or without the cache: the method the class understands the message by. */
    method FindNewMethodInClass(cls: nat)
      requires Valid() && CacheSound() && cls in classes
      requires Understood(classes, depth, cls, DOES_NOT_UNDERSTAND).Some?
      modifies this`messageSelector, this`argumentCount, this`newMethod, this`primitiveIndex, methodCache
      ensures CacheSound()
      ensures messageSelector == Sent(classes, depth, cls, old(messageSelector))
      ensures argumentCount == if messageSelector == old(messageSelector) then old(argumentCount) else 1
      ensures Understood(classes, depth, cls, messageSelector) == Some(newMethod)
      ensures newMethod in headers && primitiveIndex == PrimitiveIndexOf(headers[newMethod])
    {
      var entry := BitAnd(BitAnd(messageSelector, cls), 255);
      hide MethodsKnown, Understood, BitAnd, WellFounded, Sound;
      NotNil(cls);
      var hash := entry * 4;
      if methodCache[hash] == messageSelector && methodCache[hash + 1] == cls {
        newMethod := methodCache[hash + 2];
        primitiveIndex := methodCache[hash + 3];
        EntryIsSound(entry);
      } else {
        LookupMethodInClass(cls);
        StoreEntry(entry, cls);
      }
    }

    lemma NotNil(cls: nat)
      requires Valid() && cls in classes
      ensures cls != NIL
    {
    }
  }
}
