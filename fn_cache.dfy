/** The memoising wrapper of pypb/cache.py: `fnhash`, which reduces a
    function's source to a whitespace-free string that identifies its
    code, and the hit/miss decision of the wrapper `diskcache` builds. */
module FnCache {
  import opened Wrappers

  /** Python 2's `str.isspace` on one character: space, tab, line feed,
      vertical tab, form feed or carriage return. */
  predicate IsSpace(c: char) {
    c == ' ' || '\t' <= c <= '\r'
  }

  /** `str.lstrip()`: the string without its leading whitespace. */
  function TrimLeft(s: string): (r: string)
    ensures |r| <= |s| && r == s[|s| - |r|..]
    ensures r == [] || !IsSpace(r[0])
    ensures forall i :: 0 <= i < |s| - |r| ==> IsSpace(s[i])
  {
    if s == [] || !IsSpace(s[0]) then s else TrimLeft(s[1..])
  }

  /** `str.rstrip()`: the string without its trailing whitespace. */
  function TrimRight(s: string): (r: string)
    ensures |r| <= |s| && r == s[..|r|]
    ensures r == [] || !IsSpace(r[|r| - 1])
    ensures forall i :: |r| <= i < |s| ==> IsSpace(s[i])
  {
    if s == [] || !IsSpace(s[|s| - 1]) then s else TrimRight(s[..|s| - 1])
  }

  /** `str.strip()`. */
  function Strip(s: string): string {
    TrimRight(TrimLeft(s))
  }

  /** The filter of `fnhash`: a line is kept when its stripped form is not
      empty and does not start with `#`. */
  predicate Kept(line: string) {
    Strip(line) != [] && Strip(line)[0] != '#'
  }

  /** A line is kept exactly when it has a character other than whitespace
      and the first such character is not `#`: blank lines and comment
      lines are dropped, and nothing else. */
  lemma KeptMeans(line: string)
    ensures Kept(line) <==>
      exists i :: 0 <= i < |line| && !IsSpace(line[i]) && line[i] != '#' &&
        forall j :: 0 <= j < i ==> IsSpace(line[j])
  {
    var l := TrimLeft(line);
    var k := |line| - |l|;
    if Kept(line) {
      assert line[k] == l[0] == Strip(line)[0];
    }
    if exists i :: 0 <= i < |line| && !IsSpace(line[i]) && line[i] != '#' &&
        forall j :: 0 <= j < i ==> IsSpace(line[j]) {
      var i :| 0 <= i < |line| && !IsSpace(line[i]) && line[i] != '#' &&
        forall j :: 0 <= j < i ==> IsSpace(line[j]);
      assert i == k;
      assert Strip(line) != [] && Strip(line)[0] == l[0];
    }
  }

  /** The elements of `s` that `keep` accepts, in order. */
  function Filter<X>(keep: X -> bool, s: seq<X>): seq<X> {
    if s == [] then [] else (if keep(s[0]) then [s[0]] else []) + Filter(keep, s[1..])
  }

  /** Filtering a concatenation filters each part: the accepted elements
      keep their order and each is kept as often as it occurs. */
  lemma {:induction false} FilterAppend<X>(keep: X -> bool, a: seq<X>, b: seq<X>)
    ensures Filter(keep, a + b) == Filter(keep, a) + Filter(keep, b)
    decreases |a|
  {
    if a == [] {
      assert a + b == b;
    } else {
      var head := if keep(a[0]) then [a[0]] else [];
      assert (a + b)[0] == a[0] && (a + b)[1..] == a[1..] + b;
      FilterAppend(keep, a[1..], b);
      assert Filter(keep, a + b) == head + (Filter(keep, a[1..]) + Filter(keep, b));
    }
  }

  /** The list comprehension of `fnhash`: the kept lines, in order. */
  function KeptLines(lines: seq<string>): seq<string> {
    Filter(Kept, lines)
  }

  /** A line is among the kept lines exactly when it is an input line that
      is kept. */
  lemma {:induction false} KeptLinesMembers(lines: seq<string>)
    ensures forall l :: l in KeptLines(lines) <==> l in lines && Kept(l)
    decreases |lines|
  {
    if lines != [] {
      KeptLinesMembers(lines[1..]);
      assert lines == [lines[0]] + lines[1..];
    }
  }

  /** The kept lines of a source followed by one more line: that line is
      appended exactly when it is kept, and the earlier kept lines stay as
      they were. With `KeptLines([]) == []` this fixes the order and the
      number of copies of every kept line. */
  lemma KeptLinesSnoc(lines: seq<string>, line: string)
    ensures KeptLines(lines + [line]) == KeptLines(lines) + (if Kept(line) then [line] else [])
  {
    FilterAppend(Kept, lines, [line]);
    var one: seq<string> := [line];
    assert one[1..] == [];
  }

  /** `"".join(lines)`. */
  function Concat(lines: seq<string>): string {
    if lines == [] then [] else lines[0] + Concat(lines[1..])
  }

  /** The first position at which `pat` occurs in `s`, as `str.find`. */
  function Find(s: string, pat: string): (r: Option<nat>)
    ensures r.Some? ==> r.value + |pat| <= |s|
    decreases |s|
  {
    if |s| < |pat| then None
    else if s[..|pat|] == pat then Some(0)
    else match Find(s[1..], pat)
      case None => None
      case Some(i) => Some(i + 1)
  }

  /** Whether `pat` occurs in `s` at position `i`. */
  predicate OccursAt(s: string, pat: string, i: nat) {
    i + |pat| <= |s| && s[i..i + |pat|] == pat
  }

  /** `Find` agrees with its definition by occurrences: it returns the
      first position where the pattern occurs, or nothing when it occurs
      nowhere. */
  lemma {:induction false} FindIsFirst(s: string, pat: string)
    ensures Find(s, pat).Some? ==>
      OccursAt(s, pat, Find(s, pat).value) && forall j :: 0 <= j < Find(s, pat).value ==> !OccursAt(s, pat, j)
    ensures Find(s, pat).None? ==> forall j: nat :: !OccursAt(s, pat, j)
    decreases |s|
  {
    if |s| >= |pat| && s[..|pat|] != pat {
      FindIsFirst(s[1..], pat);
      forall j: nat | OccursAt(s, pat, j)
        ensures j > 0 && OccursAt(s[1..], pat, j - 1)
      {
        assert j != 0;
        assert s[1..][j - 1..j - 1 + |pat|] == s[j..j + |pat|];
      }
      if Find(s[1..], pat).Some? {
        var i := Find(s[1..], pat).value;
        assert s[i + 1..i + 1 + |pat|] == s[1..][i..i + |pat|];
      }
    }
  }

  /** `s.replace(pat, "", 1)`: `s` without the first occurrence of `pat`,
      or `s` itself when `pat` does not occur. An empty pattern occurs at
      the start and removing it changes nothing. */
  function RemoveFirst(s: string, pat: string): (r: string)
    ensures |r| == (if Find(s, pat).Some? then |s| - |pat| else |s|)
  {
    match Find(s, pat)
    case None => s
    case Some(i) => s[..i] + s[i + |pat|..]
  }

  /** The characters of `s` that are not whitespace, in order. */
  function RemoveSpaces(s: string): (r: string)
    ensures forall i :: 0 <= i < |r| ==> !IsSpace(r[i])
  {
    if s == [] then []
    else (if IsSpace(s[0]) then [] else [s[0]]) + RemoveSpaces(s[1..])
  }

  /** Removing whitespace from a concatenation removes it from each part:
      the other characters keep their order and their number. */
  lemma {:induction false} RemoveSpacesAppend(a: string, b: string)
    ensures RemoveSpaces(a + b) == RemoveSpaces(a) + RemoveSpaces(b)
    decreases |a|
  {
    if a == [] {
      assert a + b == b;
    } else {
      RemoveSpacesAppend(a[1..], b);
      assert (a + b)[1..] == a[1..] + b;
    }
  }

  /** One more character survives exactly when it is not whitespace. */
  lemma RemoveSpacesSnoc(s: string, c: char)
    ensures RemoveSpaces(s + [c]) == RemoveSpaces(s) + (if IsSpace(c) then [] else [c])
  {
    RemoveSpacesAppend(s, [c]);
    var one: string := [c];
    assert one[1..] == [];
  }

  /** `fnhash`, over the function's source lines, its docstring (`None`
      when it has none) and its name. */
  function FnHash(lines: seq<string>, doc: Option<string>, name: string): (h: string)
    ensures forall i :: 0 <= i < |h| ==> !IsSpace(h[i])
  {
    var joined := Concat(KeptLines(lines));
    var undocumented := if doc.Some? then RemoveFirst(joined, doc.value) else joined;
    RemoveSpaces(RemoveFirst(undocumented, name))
  }

  /** `a` can be obtained from `b` by deleting characters. */
  predicate IsSubseq(a: string, b: string)
    decreases |b|
  {
    if a == [] then true
    else if b == [] then false
    else if a[0] == b[0] then IsSubseq(a[1..], b[1..])
    else IsSubseq(a, b[1..])
  }

  lemma {:induction false} SubseqCons(a: string, c: char, b: string)
    requires IsSubseq(a, b)
    ensures IsSubseq(a, [c] + b)
    decreases |b| + 1, 0
  {
    var cb := [c] + b;
    assert cb[1..] == b;
    if a != [] && a[0] == c {
      SubseqTail(a, b);
    }
  }

  lemma {:induction false} SubseqTail(a: string, b: string)
    requires a != [] && IsSubseq(a, b)
    ensures IsSubseq(a[1..], b)
    decreases |b|, 1
  {
    assert b != [];
    if a[0] == b[0] {
      SubseqCons(a[1..], b[0], b[1..]);
    } else {
      SubseqTail(a, b[1..]);
      SubseqCons(a[1..], b[0], b[1..]);
    }
    assert [b[0]] + b[1..] == b;
  }

  lemma {:induction false} SubseqRefl(s: string)
    ensures IsSubseq(s, s)
    decreases |s|
  {
    if s != [] {
      SubseqRefl(s[1..]);
    }
  }

  /** Deleting characters twice is deleting characters. */
  lemma {:induction false} SubseqTrans(a: string, b: string, c: string)
    requires IsSubseq(a, b) && IsSubseq(b, c)
    ensures IsSubseq(a, c)
    decreases |c|
  {
    if a != [] {
      if b[0] == c[0] {
        if a[0] == b[0] {
          SubseqTrans(a[1..], b[1..], c[1..]);
        } else {
          SubseqTrans(a, b[1..], c[1..]);
        }
      } else {
        SubseqTrans(a, b, c[1..]);
        if a[0] == c[0] {
          SubseqTail(a, c[1..]);
        }
      }
    }
  }

  /** Cutting out `s[i..j]` deletes characters. */
  lemma {:induction false} SubseqSplice(s: string, i: nat, j: nat)
    requires i <= j <= |s|
    ensures IsSubseq(s[..i] + s[j..], s)
    decreases |s|
  {
    if i == 0 {
      assert s[..0] + s[j..] == s[j..];
      if j == 0 {
        SubseqRefl(s);
      } else {
        SubseqSplice(s[1..], 0, j - 1);
        assert s[1..][..0] + s[1..][j - 1..] == s[j..];
        SubseqCons(s[j..], s[0], s[1..]);
        assert [s[0]] + s[1..] == s;
      }
    } else {
      SubseqSplice(s[1..], i - 1, j - 1);
      assert (s[..i] + s[j..])[1..] == s[1..][..i - 1] + s[1..][j - 1..];
    }
  }

  lemma RemoveFirstSubseq(s: string, pat: string)
    ensures IsSubseq(RemoveFirst(s, pat), s)
  {
    match Find(s, pat)
    case None => SubseqRefl(s);
    case Some(i) => SubseqSplice(s, i, i + |pat|);
  }

  /** `RemoveFirst` removes exactly the first occurrence of the pattern,
      and changes nothing when the pattern does not occur. */
  lemma RemoveFirstExact(s: string, pat: string)
    ensures Find(s, pat).None? ==> RemoveFirst(s, pat) == s
    ensures Find(s, pat).Some? ==>
      var i := Find(s, pat).value;
      && OccursAt(s, pat, i) && (forall j :: 0 <= j < i ==> !OccursAt(s, pat, j))
      && RemoveFirst(s, pat) == s[..i] + s[i + |pat|..]
      && |RemoveFirst(s, pat)| == |s| - |pat|
  {
    FindIsFirst(s, pat);
  }

  lemma {:induction false} RemoveSpacesSubseq(s: string)
    ensures IsSubseq(RemoveSpaces(s), s)
    decreases |s|
  {
    if s != [] {
      RemoveSpacesSubseq(s[1..]);
      var a, r := RemoveSpaces(s), RemoveSpaces(s[1..]);
      if IsSpace(s[0]) {
        SubseqCons(r, s[0], s[1..]);
        assert [s[0]] + s[1..] == s;
        assert a == [] + r == r;
      } else {
        assert a[0] == s[0] && a[1..] == r;
      }
    }
  }

  /** A string without whitespace is left as it is. */
  lemma {:induction false} RemoveSpacesUnchanged(s: string)
    requires forall i :: 0 <= i < |s| ==> !IsSpace(s[i])
    ensures RemoveSpaces(s) == s
    decreases |s|
  {
    if s != [] {
      RemoveSpacesUnchanged(s[1..]);
    }
  }

  /** Removing whitespace a second time changes nothing. */
  lemma RemoveSpacesIdempotent(s: string)
    ensures RemoveSpaces(RemoveSpaces(s)) == RemoveSpaces(s)
  {
    RemoveSpacesUnchanged(RemoveSpaces(s));
  }

  /** What `fnhash` returns has no whitespace and is obtained from the
      joined kept lines by deleting characters only. */
  lemma FnHashProperties(lines: seq<string>, doc: Option<string>, name: string)
    ensures var h := FnHash(lines, doc, name);
      && (forall i :: 0 <= i < |h| ==> !IsSpace(h[i]))
      && IsSubseq(h, Concat(KeptLines(lines)))
  {
    var joined := Concat(KeptLines(lines));
    var undocumented := if doc.Some? then RemoveFirst(joined, doc.value) else joined;
    var unnamed := RemoveFirst(undocumented, name);
    if doc.Some? {
      RemoveFirstSubseq(joined, doc.value);
    } else {
      SubseqRefl(joined);
    }
    RemoveFirstSubseq(undocumented, name);
    RemoveSpacesSubseq(unnamed);
    SubseqTrans(unnamed, undocumented, joined);
    SubseqTrans(RemoveSpaces(unnamed), unnamed, joined);
  }

  /** A keyword argument of a cached call. `Stamp` is a `datetime` (as a
      number of time units); `Plain` is any other object, with its Python
      truth value. */
  datatype KwArg<V> = Flag(b: bool) | Stamp(t: int) | Plain(v: V, truthy: bool)

  /** Python's truth value of a keyword argument; a `datetime` is always
      true. */
  predicate Truthy<V>(a: KwArg<V>) {
    match a
    case Flag(b) => b
    case Stamp(_) => true
    case Plain(_, t) => t
  }

  const ForceMiss := "_force_miss"
  const ForceBefore := "_force_before"

  /** The keyword arguments once the wrapper's own two are deleted. */
  function Stripped<V>(kwargs: map<string, KwArg<V>>): (r: map<string, KwArg<V>>)
    ensures ForceMiss !in r && ForceBefore !in r
    ensures forall k :: k in r <==> k in kwargs && k != ForceMiss && k != ForceBefore
    ensures forall k :: k in r ==> r[k] == kwargs[k]
  {
    kwargs - {ForceMiss, ForceBefore}
  }

  /** `kwargs.get("_force_miss", False)`, read for its truth value. */
  predicate ForcesMiss<V>(kwargs: map<string, KwArg<V>>) {
    ForceMiss in kwargs && Truthy(kwargs[ForceMiss])
  }

  /** `kwargs.get("_force_before", now)`. */
  function ForcedBefore<V>(kwargs: map<string, KwArg<V>>, now: int): KwArg<V> {
    if ForceBefore in kwargs then kwargs[ForceBefore] else Stamp(now)
  }

  /** What identifies a run: the function's `fnhash`, the positional
      arguments and the remaining keyword arguments. The SHA-1 digest of
      their pickle that names the cache file is taken to be injective. */
  datatype RunKey<A, V> = RunKey(fhash: string, args: A, kwargs: map<string, KwArg<V>>)

  /** A cache file: when the result was computed, and the result. */
  datatype Entry<R> = Entry(at: int, result: R)

  /** How a cached call ends: with the stored result, with a result just
      computed and stored, with the `TypeError` Python raises when
      `_force_before` is not a `datetime` and has to be compared, or with
      the exception the original function raised. */
  datatype Reply<R, V, E> =
    | Cached(result: R)
    | Computed(result: R)
    | Incomparable(forceBefore: KwArg<V>)
    | Raised(error: E)

  /** A stored result is used exactly when its entry exists, no miss is
      forced, and it was computed strictly before `forceBefore`. */
  predicate IsHit<K, R, V>(store: map<K, Entry<R>>, key: K, forceMiss: bool, forceBefore: KwArg<V>) {
    key in store && !forceMiss && forceBefore.Stamp? && store[key].at < forceBefore.t
  }

  /** The two keyword arguments of the wrapper never change which entry a
      call looks up, nor what the original function is given. */
  lemma ControlArgsNotInKey<A, V>(fhash: string, args: A, kwargs: map<string, KwArg<V>>, miss: KwArg<V>, before: KwArg<V>)
    ensures RunKey(fhash, args, Stripped(kwargs[ForceMiss := miss][ForceBefore := before])) ==
            RunKey(fhash, args, Stripped(kwargs))
  {
    var a, b := Stripped(kwargs[ForceMiss := miss][ForceBefore := before]), Stripped(kwargs);
    assert a.Keys == b.Keys;
  }

  /** A result just stored is used by the next call on the same key made
      strictly after it, unless that call forces a miss or passes an older
      `_force_before`. */
  lemma StoredThenHit<K, R, V>(store: map<K, Entry<R>>, key: K, stamp: int, result: R, kwargs: map<string, KwArg<V>>, now: int)
    requires ForceMiss !in kwargs && ForceBefore !in kwargs
    ensures IsHit(store[key := Entry(stamp, result)], key, ForcesMiss(kwargs), ForcedBefore(kwargs, now)) <==> stamp < now
  {
  }

  /** The function `diskcache` wraps, with its cache files as a map. */
  class DiskCache<A(==), V(==), R, E> {
    const fhash: string
    var store: map<RunKey<A, V>, Entry<R>>

    constructor (fhash: string, files: map<RunKey<A, V>, Entry<R>>)
      ensures this.fhash == fhash && store == files
    {
      this.fhash := fhash;
      store := files;
    }

    /** `newfn(*args, **kwargs)`. The clock is read twice, `now` for the
        default of `_force_before` and `stamp` for the new entry; `orig`
        is the original function, which returns a result or raises. An
        exception leaves the cache files as they were and propagates. */
    method Call(args: A, kwargs: map<string, KwArg<V>>, now: int, stamp: int,
                orig: (A, map<string, KwArg<V>>) -> Effect<R, E>) returns (reply: Reply<R, V, E>)
      modifies this
      ensures var key, forceBefore := RunKey(fhash, args, Stripped(kwargs)), ForcedBefore(kwargs, now);
        && (IsHit(old(store), key, ForcesMiss(kwargs), forceBefore) ==>
              reply == Cached(old(store)[key].result) && store == old(store))
        && (key in old(store) && !ForcesMiss(kwargs) && !forceBefore.Stamp? ==>
              reply == Incomparable(forceBefore) && store == old(store))
        && (!IsHit(old(store), key, ForcesMiss(kwargs), forceBefore) &&
            !(key in old(store) && !ForcesMiss(kwargs) && !forceBefore.Stamp?) ==>
              var effect := orig(args, Stripped(kwargs));
              && (effect.Returns? ==>
                    reply == Computed(effect.value) && store == old(store)[key := Entry(stamp, effect.value)])
              && (effect.Raises? ==> reply == Raised(effect.error) && store == old(store)))
    {
      var forceMiss := ForceMiss in kwargs && Truthy(kwargs[ForceMiss]);
      var forceBefore := if ForceBefore in kwargs then kwargs[ForceBefore] else Stamp(now);
      var kw := kwargs;
      if ForceMiss in kw {
        kw := kw - {ForceMiss};
      }
      if ForceBefore in kw {
        kw := kw - {ForceBefore};
      }
      assert kw == Stripped(kwargs);
      var key := RunKey(fhash, args, kw);
      if key in store && !forceMiss {
        var entry := store[key];
        if !forceBefore.Stamp? {
          return Incomparable(forceBefore);
        }
        if entry.at < forceBefore.t {
          return Cached(entry.result);
        }
      }
      var effect := orig(args, kw);
      if effect.Raises? {
        return Raised(effect.error);
      }
      store := store[key := Entry(stamp, effect.value)];
      reply := Computed(effect.value);
    }
  }

  /** A forced miss whose original function raises: the exception comes
      back to the caller and the entry stored earlier is kept. */
  method RaisingOriginalKeepsEntry<A(==), V(==), R, E>(fhash: string, args: A, earlier: R, error: E)
    returns (reply: Reply<R, V, E>, kept: Entry<R>)
    ensures reply == Raised(error)
    ensures kept == Entry(0, earlier)
  {
    var key := RunKey(fhash, args, map[]);
    var cache := new DiskCache<A, V, R, E>(fhash, map[key := Entry(0, earlier)]);
    var kwargs: map<string, KwArg<V>> := map[ForceMiss := Flag(true)];
    assert Stripped(kwargs) == map[];
    reply := cache.Call(args, kwargs, 1, 1, (a, kw) => Raises(error));
    kept := cache.store[key];
  }
}
