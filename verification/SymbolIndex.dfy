/** The index of symbols by name: a lookup finds the one key that is the name or a parent of it, by looking at a
    single key. */
module SymbolIndex {
  import opened Common

  predicate SymbolChar(c: char) {
    'a' <= c <= 'z' || 'A' <= c <= 'Z' || '0' <= c <= '9' || c == '_' || c == '.'
  }

  predicate ValidName(s: string) {
    forall i | 0 <= i < |s| :: SymbolChar(s[i])
  }

  /** `sub` is `super` or one of its parts. */
  predicate IsSubSymbol(sub: string, super: string) {
    sub == super || (super < sub && sub[|super|] == '.')
  }

  /** In the code of characters: the dot, the digits, the upper-case letters, the underscore and the lower-case
      letters. */
  predicate AllowedCode(n: int) {
    n == 46 || 48 <= n <= 57 || 65 <= n <= 90 || n == 95 || 97 <= n <= 122
  }

  lemma ValidNameMeans(s: string)
    ensures ValidName(s) <==> forall c | c in s :: AllowedCode(c as int)
  {
    assert forall i | 0 <= i < |s| :: s[i] in s;
  }

  /** `name` is `symbol`, or begins with it and a dot. */
  predicate Contains(symbol: string, name: string) {
    name == symbol || symbol + "." <= name
  }

  lemma SubSymbolMeans(sub: string, super: string)
    ensures IsSubSymbol(sub, super) <==> Contains(super, sub)
  {
    if |super| < |sub| {
      assert (super + ".")[|super|] == '.' && (super + ".")[..|super|] == super;
      assert sub[..|super| + 1] == sub[..|super|] + [sub[|super|]];
    }
  }

  // ---------------------------------------------------------------- order

  predicate Before(a: string, b: string) {
    AtMost(a, b) && a != b
  }

  lemma {:induction false} AtMostTotal(a: string, b: string)
    ensures AtMost(a, b) || AtMost(b, a)
    ensures AtMost(a, b) && AtMost(b, a) ==> a == b
    ensures a == b ==> AtMost(a, b)
  {
    if a != "" && b != "" && a[0] == b[0] {
      AtMostTotal(a[1..], b[1..]);
      assert a == [a[0]] + a[1..] && b == [b[0]] + b[1..];
    }
  }

  lemma {:induction false} AtMostTransitive(a: string, b: string, c: string)
    requires AtMost(a, b) && AtMost(b, c)
    ensures AtMost(a, c)
  {
    if a != "" && a[0] == b[0] && b[0] == c[0] {
      AtMostTransitive(a[1..], b[1..], c[1..]);
    }
  }

  lemma {:induction false} ParentIsAtMost(name: string, parent: string)
    requires parent <= name
    ensures AtMost(parent, name)
  {
    if parent != "" {
      ParentIsAtMost(name[1..], parent[1..]);
    }
  }

  /** Nothing but symbols of `parent` sorts between it and a symbol of it. */
  lemma {:induction false} BetweenIsSubSymbol(name: string, parent: string, found: string)
    requires IsSubSymbol(name, parent) && AtMost(parent, found) && AtMost(found, name) && ValidName(found)
    ensures IsSubSymbol(found, parent)
  {
    if parent != "" {
      assert name[0] == parent[0];
      BetweenIsSubSymbol(name[1..], parent[1..], found[1..]);
      assert found == [found[0]] + found[1..] && parent == [parent[0]] + parent[1..];
      if found != parent {
        assert found[|parent|] == found[1..][|parent[1..]|];
      }
    } else if found != "" {
      assert SymbolChar(found[0]);
    }
  }

  // ---------------------------------------------------------------- keys

  ghost predicate Sorted(keys: seq<string>) {
    forall i, j | 0 <= i < j < |keys| :: Before(keys[i], keys[j])
  }

  /** No key is a symbol of another. */
  ghost predicate Unrelated(keys: seq<string>) {
    forall i, j | 0 <= i < |keys| && 0 <= j < |keys| && i != j :: !IsSubSymbol(keys[i], keys[j])
  }

  ghost predicate ValidKeys(keys: seq<string>) {
    Sorted(keys) && Unrelated(keys) && forall i | 0 <= i < |keys| :: ValidName(keys[i])
  }

  /** `at` is the place of the last key at most `name`, or -1. */
  predicate IsLast(keys: seq<string>, name: string, at: int) {
    && -1 <= at < |keys|
    && (forall i | 0 <= i <= at :: AtMost(keys[i], name))
    && (forall i | at < i < |keys| :: !AtMost(keys[i], name))
  }

  /** At most one key is the name or a parent of it, and it is the last that is at most the name. */
  lemma LookupIsExact(keys: seq<string>, name: string, at: int, i: nat)
    requires ValidKeys(keys) && IsLast(keys, name, at) && i < |keys|
    ensures IsSubSymbol(name, keys[i]) <==> i == at && IsSubSymbol(name, keys[at])
  {
    if IsSubSymbol(name, keys[i]) {
      AtMostTotal(name, name);
      ParentIsAtMost(name, keys[i]);
      assert i <= at;
      if i < at {
        assert Before(keys[i], keys[at]);
        BetweenIsSubSymbol(name, keys[i], keys[at]);
      }
    }
  }

  /** Without the restriction on characters the lookup would miss a parent, because '-' sorts before '.'. */
  lemma OtherCharactersHideParents()
    ensures
      var keys, name := ["a", "a-b"], "a.c";
      && Sorted(keys) && Unrelated(keys) && IsLast(keys, name, 1)
      && IsSubSymbol(name, keys[0]) && !IsSubSymbol(name, keys[1])
  {
    var keys, name := ["a", "a-b"], "a.c";
    assert AtMost("", "-b") && AtMost("-b", ".c") && AtMost("", ".c");
    assert AtMost(keys[0], keys[1]) && AtMost(keys[1], name) && AtMost(keys[0], name);
  }

  /** A symbol of `name` sorts before everything else that is greater than `name`. */
  lemma ChildrenComeFirst(name: string, next: string, child: string)
    requires IsSubSymbol(child, name) && AtMost(name, next) && AtMost(next, child) && ValidName(next)
    ensures IsSubSymbol(next, name)
  {
    BetweenIsSubSymbol(child, name, next);
  }

  class DescriptorIndex<V(==)> {
    var keys: seq<string>
    var bySymbol: map<string, V>

    ghost predicate Valid()
      reads this
    {
      AreValid(keys, bySymbol)
    }

    static ghost predicate AreValid(keys: seq<string>, bySymbol: map<string, V>) {
      ValidKeys(keys) && forall k :: k in keys <==> k in bySymbol
    }

    constructor ()
      ensures Valid() && bySymbol == map[]
    {
      keys, bySymbol := [], map[];
    }

    /** The ordered map's search. */
    method FindLastLessOrEqual(name: string) returns (at: int)
      requires Sorted(keys)
      ensures IsLast(keys, name, at) && -1 <= at < |keys|
    {
      var lo, hi := 0, |keys|;
      while lo < hi
        invariant 0 <= lo <= hi <= |keys|
        invariant forall i | 0 <= i < lo :: AtMost(keys[i], name)
        invariant forall i | hi <= i < |keys| :: !AtMost(keys[i], name)
      {
        var mid := (lo + hi) / 2;
        if AtMost(keys[mid], name) {
          forall i | lo <= i <= mid ensures AtMost(keys[i], name) {
            if i < mid {
              assert Before(keys[i], keys[mid]);
              AtMostTransitive(keys[i], keys[mid], name);
            }
          }
          lo := mid + 1;
        } else {
          forall i | mid <= i < hi ensures !AtMost(keys[i], name) {
            if mid < i && AtMost(keys[i], name) {
              assert Before(keys[mid], keys[i]);
              AtMostTransitive(keys[mid], keys[i], name);
            }
          }
          hi := mid;
        }
      }
      at := lo - 1;
    }

    /** Finds the value of the symbol that is `name` or contains it. */
    method FindSymbol(name: string) returns (r: Option<V>)
      requires Valid()
      ensures r.None? <==> forall k | k in bySymbol :: !Contains(k, name)
      ensures r.Some? ==> exists k | k in bySymbol :: Contains(k, name) && r.value == bySymbol[k]
      ensures forall k, l | k in bySymbol && l in bySymbol && IsSubSymbol(name, k) && IsSubSymbol(name, l) :: k == l
    {
      var at := FindLastLessOrEqual(name);
      forall k | k in bySymbol
        ensures IsSubSymbol(name, k) <==> at >= 0 && k == keys[at] && IsSubSymbol(name, keys[at])
      {
        var i :| 0 <= i < |keys| && keys[i] == k;
        LookupIsExact(keys, name, at, i);
      }
      forall k | k in bySymbol ensures IsSubSymbol(name, k) <==> Contains(k, name) {
        SubSymbolMeans(name, k);
      }
      if at < 0 || !IsSubSymbol(name, keys[at]) {
        return None;
      }
      assert keys[at] in bySymbol;
      return Some(bySymbol[keys[at]]);
    }

    /** Adds a symbol, unless its name is not one, or is related to a name that the index has. It is enough to
        look at the two neighbours of its place. */
    method AddSymbol(name: string, value: V) returns (ok: bool)
      requires Valid()
      modifies this
      ensures Valid()
      ensures ok <==>
        && (forall c | c in name :: AllowedCode(c as int))
        && (forall k | k in old(bySymbol) :: !Contains(k, name) && !Contains(name, k))
      ensures bySymbol == if ok then old(bySymbol)[name := value] else old(bySymbol)
    {
      hide *;
      ValidNameMeans(name);
      if !ValidName(name) {
        return false;
      }
      IsSorted();
      var at := FindLastLessOrEqual(name);
      if at >= 0 && IsSubSymbol(name, keys[at]) {
        IsRefused(name, at);
        return false;
      }
      if at + 1 < |keys| && IsSubSymbol(keys[at + 1], name) {
        IsRefused(name, at + 1);
        return false;
      }
      IsAdded(name, value, at);
      keys := Inserted(keys, name, at);
      bySymbol := bySymbol[name := value];
      Assembled();
      return true;
    }

    lemma IsSorted()
      requires Valid()
      ensures Sorted(keys)
    {
    }

    lemma IsRefused(name: string, i: nat)
      requires Valid() && i < |keys| && (IsSubSymbol(name, keys[i]) || IsSubSymbol(keys[i], name))
      ensures exists k | k in bySymbol :: Contains(k, name) || Contains(name, k)
    {
      SubSymbolMeans(name, keys[i]);
      SubSymbolMeans(keys[i], name);
      hide IsSubSymbol, Contains, ValidKeys;
      assert keys[i] in bySymbol;
    }

    lemma IsAdded(name: string, value: V, at: int)
      requires Valid() && IsLast(keys, name, at) && ValidName(name)
      requires at >= 0 ==> !IsSubSymbol(name, keys[at])
      requires at + 1 < |keys| ==> !IsSubSymbol(keys[at + 1], name)
      ensures forall k | k in bySymbol :: !Contains(k, name) && !Contains(name, k)
      ensures AreValid(Inserted(keys, name, at), bySymbol[name := value])
    {
      NeighboursSuffice(keys, name, at);
      InsertKeepsValid(keys, name, at);
      forall k | k in bySymbol ensures !Contains(k, name) && !Contains(name, k) {
        SubSymbolMeans(name, k);
        SubSymbolMeans(k, name);
      }
    }

    lemma Assembled()
      requires AreValid(keys, bySymbol)
      ensures Valid()
    {
    }
  }

  lemma NeighboursSuffice(keys: seq<string>, name: string, at: int)
    requires ValidKeys(keys) && IsLast(keys, name, at) && ValidName(name)
    requires at >= 0 ==> !IsSubSymbol(name, keys[at])
    requires at + 1 < |keys| ==> !IsSubSymbol(keys[at + 1], name)
    ensures forall k | k in keys :: !IsSubSymbol(name, k) && !IsSubSymbol(k, name)
  {
    forall k | k in keys ensures !IsSubSymbol(name, k) && !IsSubSymbol(k, name) {
      var i :| 0 <= i < |keys| && keys[i] == k;
      LookupIsExact(keys, name, at, i);
      if IsSubSymbol(k, name) {
        ParentIsAtMost(k, name);
        AtMostTotal(k, name);
        if i > at + 1 {
          AtMostTotal(name, keys[at + 1]);
          assert Before(keys[at + 1], keys[i]);
          ChildrenComeFirst(name, keys[at + 1], k);
        }
      }
    }
  }

  function Inserted(keys: seq<string>, name: string, at: int): seq<string>
    requires -1 <= at < |keys|
  {
    keys[..at + 1] + [name] + keys[at + 1..]
  }

  lemma InsertedAt(keys: seq<string>, name: string, at: int, i: nat)
    requires -1 <= at < |keys| && i <= |keys|
    ensures Inserted(keys, name, at)[i] == if i <= at then keys[i] else if i == at + 1 then name else keys[i - 1]
  {
  }

  lemma InsertKeepsSorted(keys: seq<string>, name: string, at: int)
    requires Sorted(keys) && IsLast(keys, name, at) && name !in keys
    ensures Sorted(Inserted(keys, name, at))
  {
    var more := Inserted(keys, name, at);
    hide AtMost, Inserted;
    forall i, j | 0 <= i < j < |more| ensures Before(more[i], more[j]) {
      InsertedAt(keys, name, at, i);
      InsertedAt(keys, name, at, j);
      if i == at + 1 {
        AtMostTotal(name, more[j]);
      } else if j == at + 1 {
        assert keys[i] in keys;
      }
    }
  }

  lemma InsertKeepsUnrelated(keys: seq<string>, name: string, at: int)
    requires Unrelated(keys) && -1 <= at < |keys|
    requires forall k | k in keys :: !IsSubSymbol(name, k) && !IsSubSymbol(k, name)
    ensures Unrelated(Inserted(keys, name, at))
  {
    var more := Inserted(keys, name, at);
    hide IsSubSymbol, Inserted;
    forall i, j | 0 <= i < |more| && 0 <= j < |more| && i != j ensures !IsSubSymbol(more[i], more[j]) {
      InsertedAt(keys, name, at, i);
      InsertedAt(keys, name, at, j);
      assert i == at + 1 || more[i] in keys;
      assert j == at + 1 || more[j] in keys;
    }
  }

  lemma InsertKeepsValid(keys: seq<string>, name: string, at: int)
    requires ValidKeys(keys) && IsLast(keys, name, at) && ValidName(name)
    requires forall k | k in keys :: !IsSubSymbol(name, k) && !IsSubSymbol(k, name)
    ensures
      var more := Inserted(keys, name, at);
      ValidKeys(more) && forall k :: k in more <==> k in keys || k == name
  {
    var more := Inserted(keys, name, at);
    assert keys == keys[..at + 1] + keys[at + 1..];
    assert name !in keys by { assert IsSubSymbol(name, name); }
    InsertKeepsSorted(keys, name, at);
    InsertKeepsUnrelated(keys, name, at);
    hide ValidName, Sorted, Unrelated, IsSubSymbol, AtMost;
    forall i | 0 <= i < |more| ensures ValidName(more[i]) {
      InsertedAt(keys, name, at, i);
    }
  }
}
