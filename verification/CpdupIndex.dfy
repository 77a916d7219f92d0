/**
 The name index of cpdup: one list of all names, newest first, and hash chains over it.
 It decides which entries of the destination directory are to be removed.
 */
module CpdupIndex {

  const HSIZE: nat := 8192

  // Values: 1 for an exclusion, 0 for a source name, 3 for a destination name.
  datatype Entry = Entry(name: string, value: int)

  predicate Wild(c: char) {
    c == '*' || c == '?' || c == '{' || c == '}' || c == '[' || c == ']' || c == '|'
  }

  // Characters are bytes; char is signed.
  function SignExtend(c: char): bv32 {
    var b := (c as int % 256) as bv32;
    if b >= 128 then b | 0xFFFF_FF00 else b
  }

  // hv >> 23 on a signed int.
  function Shift23(hv: bv32): bv32 {
    if hv >= 0x8000_0000 then (hv >> 23) | 0xFFFF_FE00 else hv >> 23
  }

  function Shift16(hv: bv32): bv32 {
    if hv >= 0x8000_0000 then (hv >> 16) | 0xFFFF_0000 else hv >> 16
  }

  function Mix(s: string, hv: bv32): bv32 {
    if |s| == 0 then hv else Mix(s[1..], Round(hv, s[0]))
  }

  // One round of the hash, and its end.
  function Round(hv: bv32, c: char): bv32 {
    (hv << 5) ^ SignExtend(c) ^ Shift23(hv)
  }

  // The low 13 bits of (hv >> 16) ^ hv.
  function Fold(hv: bv32): (h: nat)
    ensures h < HSIZE
  {
    ((Shift16(hv) ^ hv) & 0x1FFF) as bv13 as nat
  }

  // What shash computes: bucket 0 for every name with a wildcard character.
  function HashOf(s: string): (h: nat)
    ensures h < HSIZE
    ensures (exists i :: 0 <= i < |s| && Wild(s[i])) ==> h == 0
  {
    if exists i :: 0 <= i < |s| && Wild(s[i]) then 0
    else Fold(Mix(s, 0xA4FB_3255))
  }

  // The characters that send a name to bucket 0.
  lemma WildcardNames(s: string, i: nat)
    requires i < |s| && s[i] in {'*', '?', '{', '}', '[', ']', '|'}
    ensures HashOf(s) == 0
  {
    assert Wild(s[i]);
  }

  lemma CharA()
    ensures SignExtend('a') == 0x61
  {
  }

  lemma CharU()
    ensures SignExtend('u') == 0x75
  {
  }

  lemma CharW()
    ensures SignExtend('w') == 0x77
  {
  }

  lemma NegativeChar()
    ensures SignExtend('\U{FF}') == 0xFFFF_FFFF
  {
  }

  /** Some buckets: of the empty name, of a letter, of a byte whose char is negative, and of two
      letters that end in bucket 0 although neither is a wildcard. */
  lemma SomeBuckets()
    ensures HashOf("") == 5806 && HashOf("a") == 5393 && HashOf("\U{FF}") == 5488 && HashOf("uw") == 0
  {
    CharA();
    CharU();
    CharW();
    NegativeChar();
    hide SignExtend;
    var hv: bv32 := 0xA4FB_3255;
    assert "a"[1..] == "" && "\U{FF}"[1..] == "" && "uw"[1..] == "w" && "w"[1..] == "";
    assert Mix("a", hv) == Round(hv, 'a') && Mix("\U{FF}", hv) == Round(hv, '\U{FF}');
    assert Mix("uw", hv) == Mix("w", Round(hv, 'u')) == Round(Round(hv, 'u'), 'w');
  }

  method Shash(s: string) returns (h: nat)
    ensures h == HashOf(s)
  {
    hide Round, Fold;
    var hv: bv32, i := 0xA4FB_3255, 0;
    assert s[0..] == s;
    while i < |s|
      invariant 0 <= i <= |s| && forall j :: 0 <= j < i ==> !Wild(s[j])
      invariant Mix(s[i..], hv) == Mix(s, 0xA4FB_3255)
    {
      if Wild(s[i]) {
        return 0;
      }
      assert s[i..][0] == s[i] && s[i..][1..] == s[i + 1..];
      hv := Round(hv, s[i]);
      i := i + 1;
    }
    h := Fold(hv);
  }

  // The chain of one bucket: its entries in the order of the list.
  ghost function Chain(all: seq<Entry>, b: nat): (r: seq<Entry>)
    ensures forall e :: e in r <==> e in all && HashOf(e.name) == b
  {
    if |all| == 0 then []
    else (if HashOf(all[0].name) == b then [all[0]] else []) + Chain(all[1..], b)
  }

  // Whether an entry stops a name from being added with value n.
  ghost predicate Hits(fnmatch: (string, string) -> bool, e: Entry, name: string, n: int) {
    e.name == name || (n != 1 && e.value == 1 && HashOf(e.name) == 0 && fnmatch(e.name, name))
  }

  ghost predicate Hit(fnmatch: (string, string) -> bool, all: seq<Entry>, name: string, n: int) {
    exists e :: e in all && Hits(fnmatch, e, name, n)
  }

  // The names with value n among the first k entries.
  function Named(all: seq<Entry>, n: int, k: nat): seq<string>
    requires k <= |all|
  {
    if k == 0 then []
    else Named(all, n, k - 1) + if all[k - 1].value == n then [all[k - 1].name] else []
  }

  lemma NamedNone(all: seq<Entry>, n: int)
    ensures Named(all, n, 0) == []
  {
  }

  lemma NamedMore(all: seq<Entry>, n: int, k: nat)
    requires k < |all| && all[k].value == n
    ensures Named(all, n, k + 1) == Named(all, n, k) + [all[k].name]
  {
  }

  lemma {:induction false} NamedSkip(all: seq<Entry>, n: int, j: nat, k: nat)
    requires j <= k <= |all| && forall i :: j <= i < k ==> all[i].value != n
    ensures Named(all, n, k) == Named(all, n, j)
  {
    if j < k {
      NamedSkip(all, n, j, k - 1);
    }
  }

  lemma {:induction false} NamedEntry(all: seq<Entry>, n: int, k: nat, x: string)
    requires k <= |all|
    ensures x in Named(all, n, k) <==> Entry(x, n) in all[..k]
  {
    if k > 0 {
      NamedEntry(all, n, k - 1, x);
      assert all[..k] == all[..k - 1] + [all[k - 1]];
    }
  }

  lemma {:induction false} NamedOnce(all: seq<Entry>, n: int, k: nat)
    requires k <= |all| && Distinct(all)
    ensures forall i, j :: 0 <= i < j < |Named(all, n, k)| ==> Named(all, n, k)[i] != Named(all, n, k)[j]
  {
    if k > 0 {
      NamedOnce(all, n, k - 1);
      NamedEntry(all, n, k - 1, all[k - 1].name);
      assert all[k - 1] !in all[..k - 1];
    }
  }

  class List {
    var all: seq<Entry>
    const hash: array<seq<Entry>>

    ghost predicate Valid()
      reads this, hash
    {
      hash.Length == HSIZE && forall b :: 0 <= b < HSIZE ==> hash[b] == Chain(all, b)
    }

    // InitList
    constructor ()
      ensures Valid() && all == [] && fresh(hash)
    {
      all := [];
      hash := new seq<Entry>[HSIZE](_ => []);
    }

    /** AddList: a name that an entry stops is not added, and the result is that entry's
        value; any other name goes to the front of the list with value n. */
    method AddList(fnmatch: (string, string) -> bool, name: string, n: int) returns (r: int)
      requires Valid()
      modifies this, hash
      ensures Valid()
      ensures Hit(fnmatch, old(all), name, n) ==>
        all == old(all) && exists e :: e in all && Hits(fnmatch, e, name, n) && e.value == r
      ensures !Hit(fnmatch, old(all), name, n) ==> all == [Entry(name, n)] + old(all) && r == n
    {
      hide HashOf;
      var wild := hash[0];
      for i := 0 to |wild|
        invariant forall j :: 0 <= j < i ==> !Hits(fnmatch, wild[j], name, n)
      {
        var e := wild[i];
        assert e in wild && e in all;
        if name == e.name || (n != 1 && e.value == 1 && fnmatch(e.name, name)) {
          assert Hits(fnmatch, e, name, n);
          return e.value;
        }
      }
      var hv := Shash(name);
      var chain := hash[hv];
      for i := 0 to |chain|
        invariant forall j :: 0 <= j < i ==> chain[j].name != name
      {
        var e := chain[i];
        assert e in chain && e in all;
        if name == e.name {
          assert Hits(fnmatch, e, name, n);
          return e.value;
        }
      }
      assert !Hit(fnmatch, all, name, n) by {
        forall e | e in all ensures !Hits(fnmatch, e, name, n) {
          assert HashOf(e.name) == 0 ==> e in wild;
          assert e.name == name ==> e in chain;
        }
      }
      var node := Entry(name, n);
      ghost var before := all;
      all := [node] + all;
      hash[hv] := [node] + hash[hv];
      assert all[1..] == before;
      r := n;
    }

    /** IterateList: the next entry with value n after index `node`, or from the front for
        -1; -1 at the end. */
    method IterateList(node: int, n: int) returns (r: int)
      requires -1 <= node < |all|
      ensures r == -1 || (node < r < |all| && all[r].value == n)
      ensures forall k :: node < k < (if r == -1 then |all| else r) ==> all[k].value != n
    {
      r := node + 1;
      while r < |all| && all[r].value != n
        invariant node < r <= |all|
        invariant forall k :: node < k < r ==> all[k].value != n
      {
        r := r + 1;
      }
      if r == |all| {
        r := -1;
      }
    }

    // Walks the list with IterateList and collects the names with value n.
    method Collect(n: int) returns (names: seq<string>)
      requires Distinct(all)
      ensures forall i, j :: 0 <= i < j < |names| ==> names[i] != names[j]
      ensures forall x :: x in names <==> Entry(x, n) in all
    {
      hide Distinct, Named;
      names := [];
      var node := IterateList(-1, n);
      NamedSkip(all, n, 0, if node == -1 then |all| else node);
      NamedNone(all, n);
      while node != -1
        invariant node == -1 || (0 <= node < |all| && all[node].value == n)
        invariant names == Named(all, n, if node == -1 then |all| else node)
        decreases if node == -1 then 0 else |all| - node
      {
        NamedMore(all, n, node);
        names := names + [all[node].name];
        ghost var from := node + 1;
        node := IterateList(node, n);
        NamedSkip(all, n, from, if node == -1 then |all| else node);
      }
      NamedOnce(all, n, |all|);
      assert all[..|all|] == all;
      forall x ensures x in names <==> Entry(x, n) in all {
        NamedEntry(all, n, |all|, x);
      }
    }

    // The part of ScanDir that reads the directory: every name but . and .. is added.
    method AddNames(fnmatch: (string, string) -> bool, names: seq<string>, n: int,
                    ghost excl: set<string>, ghost src: set<string>) returns (ghost added: set<string>)
      requires Valid() && (n == 0 || n == 3) && (n == 0 ==> src == {})
      requires Sorted(fnmatch, all, excl, src, {})
      modifies this, hash
      ensures Valid() && added == Proper(names)
      ensures if n == 0 then Sorted(fnmatch, all, excl, added, {}) else Sorted(fnmatch, all, excl, src, added)
    {
      added := {};
      for i := 0 to |names|
        invariant Valid() && added == Proper(names[..i])
        invariant if n == 0 then Sorted(fnmatch, all, excl, added, {}) else Sorted(fnmatch, all, excl, src, added)
      {
        assert names[..i + 1] == names[..i] + [names[i]];
        if names[i] != "." && names[i] != ".." {
          ghost var before := all;
          var _ := AddList(fnmatch, names[i], n);
          if n == 0 {
            AddSource(fnmatch, before, all, excl, added, names[i]);
          } else {
            AddTarget(fnmatch, before, all, excl, src, added, names[i]);
          }
          added := added + {names[i]};
        }
      }
      assert names[..|names|] == names;
    }

    // The exclusions, added before any name of the source.
    method AddExclusions(fnmatch: (string, string) -> bool, excl: seq<string>)
      requires Valid() && all == []
      modifies this, hash
      ensures Valid() && Sorted(fnmatch, all, Names(excl), {}, {})
    {
      for i := 0 to |excl|
        invariant Valid() && Sorted(fnmatch, all, Names(excl[..i]), {}, {})
      {
        assert excl[..i + 1] == excl[..i] + [excl[i]];
        ghost var before := all;
        var _ := AddList(fnmatch, excl[i], 1);
        AddExclusion(fnmatch, before, all, Names(excl[..i]), excl[i]);
      }
      assert excl[..|excl|] == excl;
    }
  }

  ghost function Names(s: seq<string>): set<string> {
    set x | x in s
  }

  // Directory entries other than . and ..
  ghost function Proper(s: seq<string>): set<string> {
    set x | x in s && x != "." && x != ".."
  }

  ghost predicate Distinct(all: seq<Entry>) {
    forall i, j :: 0 <= i < j < |all| ==> all[i].name != all[j].name
  }

  // A name equal to an exclusion or matched by one in bucket 0.
  ghost predicate Excluded(fnmatch: (string, string) -> bool, excl: set<string>, name: string) {
    name in excl || exists x :: x in excl && HashOf(x) == 0 && fnmatch(x, name)
  }

  // What the list holds of exclusions, source names and destination names seen so far.
  ghost predicate Sorted(fnmatch: (string, string) -> bool, all: seq<Entry>,
                         excl: set<string>, src: set<string>, dst: set<string>) {
    && Distinct(all)
    && (forall e :: e in all ==> e.value == 0 || e.value == 1 || e.value == 3)
    && (forall x :: Entry(x, 1) in all <==> x in excl)
    && (forall x :: Entry(x, 0) in all <==> x in src && !Excluded(fnmatch, excl, x))
    && (forall x :: Entry(x, 3) in all <==> x in dst && x !in src && !Excluded(fnmatch, excl, x))
  }

  // What AddList promises.
  ghost predicate Added(fnmatch: (string, string) -> bool, before: seq<Entry>, after: seq<Entry>,
                        name: string, n: int) {
    && (Hit(fnmatch, before, name, n) ==> after == before)
    && (!Hit(fnmatch, before, name, n) ==> after == [Entry(name, n)] + before)
  }

  // The names a list holds are those of its entries with value 0, 1 or 3.
  lemma HitNames(fnmatch: (string, string) -> bool, all: seq<Entry>, excl: set<string>,
                 src: set<string>, dst: set<string>, name: string, n: int)
    requires Sorted(fnmatch, all, excl, src, dst)
    ensures n == 1 ==> (Hit(fnmatch, all, name, n) <==>
                        Entry(name, 0) in all || Entry(name, 1) in all || Entry(name, 3) in all)
    ensures n != 1 ==> (Hit(fnmatch, all, name, n) <==>
                        Excluded(fnmatch, excl, name) || Entry(name, 0) in all || Entry(name, 3) in all)
  {
    if Hit(fnmatch, all, name, n) {
      var e :| e in all && Hits(fnmatch, e, name, n);
      assert e == Entry(e.name, e.value);
    }
    forall v | Entry(name, v) in all ensures Hit(fnmatch, all, name, n) {
      assert Hits(fnmatch, Entry(name, v), name, n);
    }
    if n != 1 {
      forall x | x in excl && HashOf(x) == 0 && fnmatch(x, name) ensures Hit(fnmatch, all, name, n) {
        assert Hits(fnmatch, Entry(x, 1), name, n);
      }
    }
  }

  lemma AddExclusion(fnmatch: (string, string) -> bool, before: seq<Entry>, after: seq<Entry>,
                     excl: set<string>, name: string)
    requires Sorted(fnmatch, before, excl, {}, {}) && Added(fnmatch, before, after, name, 1)
    ensures Sorted(fnmatch, after, excl + {name}, {}, {})
  {
    HitNames(fnmatch, before, excl, {}, {}, name, 1);
    NewName(fnmatch, before, after, name, 1);
  }

  lemma AddSource(fnmatch: (string, string) -> bool, before: seq<Entry>, after: seq<Entry>,
                  excl: set<string>, src: set<string>, name: string)
    requires Sorted(fnmatch, before, excl, src, {}) && Added(fnmatch, before, after, name, 0)
    ensures Sorted(fnmatch, after, excl, src + {name}, {})
  {
    HitNames(fnmatch, before, excl, src, {}, name, 0);
    NewName(fnmatch, before, after, name, 0);
  }

  lemma AddTarget(fnmatch: (string, string) -> bool, before: seq<Entry>, after: seq<Entry>,
                  excl: set<string>, src: set<string>, dst: set<string>, name: string)
    requires Sorted(fnmatch, before, excl, src, dst) && Added(fnmatch, before, after, name, 3)
    ensures Sorted(fnmatch, after, excl, src, dst + {name})
  {
    HitNames(fnmatch, before, excl, src, dst, name, 3);
    NewName(fnmatch, before, after, name, 3);
  }

  // What a list holds after AddList, and that its names stay distinct.
  lemma NewName(fnmatch: (string, string) -> bool, before: seq<Entry>, after: seq<Entry>, name: string, n: int)
    requires Distinct(before) && Added(fnmatch, before, after, name, n)
    ensures Distinct(after)
    ensures forall e :: e in after <==> e in before || (e == Entry(name, n) && !Hit(fnmatch, before, name, n))
  {
    if !Hit(fnmatch, before, name, n) {
      forall i, j | 0 <= i < j < |after| ensures after[i].name != after[j].name {
        if i == 0 {
          var e := before[j - 1];
          assert e in before && after[j] == e;
          assert !Hits(fnmatch, e, name, n);
        } else {
          assert after[i] == before[i - 1] && after[j] == before[j - 1];
        }
      }
    }
  }

  // An exclusion with a wildcard character keeps out what fnmatch accepts.
  lemma WildcardExcludes(fnmatch: (string, string) -> bool, excl: seq<string>, e: string, i: nat, x: string)
    requires e in excl && i < |e| && e[i] in {'*', '?', '{', '}', '[', ']', '|'} && fnmatch(e, x)
    ensures Excluded(fnmatch, Names(excl), x)
  {
    WildcardNames(e, i);
    assert e in Names(excl);
  }

  // When only wildcard characters make fnmatch accept another name, the buckets do not matter.
  lemma BucketsAside(fnmatch: (string, string) -> bool, excl: seq<string>, x: string)
    requires forall e, y :: e in excl && fnmatch(e, y) && e != y ==>
      exists i :: 0 <= i < |e| && e[i] in {'*', '?', '{', '}', '[', ']', '|'}
    ensures Excluded(fnmatch, Names(excl), x) <==> exists e :: e in excl && (e == x || fnmatch(e, x))
  {
    if e :| e in excl && (e == x || fnmatch(e, x)) {
      if e != x {
        var i :| 0 <= i < |e| && e[i] in {'*', '?', '{', '}', '[', ']', '|'};
        WildcardExcludes(fnmatch, excl, e, i, x);
      }
    }
  }

  /** One directory of the copy: the exclusions, the source names and the destination names
      go into one list; what is copied and what is removed, once each. */
  method Plan(fnmatch: (string, string) -> bool, excl: seq<string>, src: seq<string>, dst: seq<string>)
    returns (copied: seq<string>, removed: seq<string>)
    ensures forall i, j :: 0 <= i < j < |copied| ==> copied[i] != copied[j]
    ensures forall x :: x in copied <==>
      x in src && x != "." && x != ".." && !Excluded(fnmatch, Names(excl), x)
    ensures forall i, j :: 0 <= i < j < |removed| ==> removed[i] != removed[j]
    ensures forall x :: x in removed <==>
      x in dst && x != "." && x != ".." && x !in src && !Excluded(fnmatch, Names(excl), x)
    ensures forall e, i, x ::
      e in excl && 0 <= i < |e| && e[i] in {'*', '?', '{', '}', '[', ']', '|'} && fnmatch(e, x) ==>
        x !in copied && x !in removed
    ensures (forall e, y :: e in excl && fnmatch(e, y) && e != y ==>
              exists i :: 0 <= i < |e| && e[i] in {'*', '?', '{', '}', '[', ']', '|'}) ==>
      && (forall x :: x in copied <==>
            x in src && x != "." && x != ".." && forall e :: e in excl ==> e != x && !fnmatch(e, x))
      && (forall x :: x in removed <==>
            x in dst && x !in src && x != "." && x != ".." && forall e :: e in excl ==> e != x && !fnmatch(e, x))
  {
    var list := new List();
    list.AddExclusions(fnmatch, excl);
    ghost var none := list.AddNames(fnmatch, src, 0, Names(excl), {});
    copied := list.Collect(0);
    ghost var seen := list.AddNames(fnmatch, dst, 3, Names(excl), none);
    removed := list.Collect(3);
    forall e, i, x | e in excl && 0 <= i < |e| && e[i] in {'*', '?', '{', '}', '[', ']', '|'} && fnmatch(e, x)
      ensures Excluded(fnmatch, Names(excl), x)
    {
      WildcardExcludes(fnmatch, excl, e, i, x);
    }
    if forall e, y :: e in excl && fnmatch(e, y) && e != y ==>
         exists i :: 0 <= i < |e| && e[i] in {'*', '?', '{', '}', '[', ']', '|'} {
      forall x ensures Excluded(fnmatch, Names(excl), x) <==> exists e :: e in excl && (e == x || fnmatch(e, x)) {
        BucketsAside(fnmatch, excl, x);
      }
    }
  }
}
