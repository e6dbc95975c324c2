/** `get_unique_permutations`: every full-length arrangement of the input
    letters, lower-cased, without repeats. */
module Permutations {
  import opened Text
  import opened Collections

  /** `s` without the element at position `i`. */
  function Remove(s: string, i: nat): (r: string)
    requires i < |s|
    ensures |r| == |s| - 1
    ensures multiset(r) + multiset{s[i]} == multiset(s)
  {
    assert s == s[..i] + [s[i]] + s[i + 1..];
    s[..i] + s[i + 1..]
  }

  /** The strings `itertools.permutations(s)` yields (joined): pick any
      position first, then arrange the remaining positions. Positions are
      distinguished, so a repeated letter yields the same string more than
      once; as a set those copies collapse. */
  function Perms(s: string): (r: set<string>)
    ensures forall p :: p in r ==> |p| == |s|
    decreases |s|
  {
    if |s| == 0 then {[]}
    else set i, p | 0 <= i < |s| && p in Perms(Remove(s, i)) :: [s[i]] + p
  }

  /** Putting the letter at position `i` in front of an arrangement of the
      other letters gives an arrangement of `s`. */
  lemma PermsCons(s: string, i: nat, p: string)
    requires i < |s| && p in Perms(Remove(s, i))
    ensures [s[i]] + p in Perms(s)
  {
  }

  /** Every arrangement of a non-empty `s` starts with one of its letters,
      followed by an arrangement of the others. */
  lemma PermsUncons(s: string, t: string) returns (i: nat)
    requires |s| > 0 && t in Perms(s)
    ensures i < |s| && |t| > 0 && t[0] == s[i] && t[1..] in Perms(Remove(s, i))
  {
    var j, p :| 0 <= j < |s| && p in Perms(Remove(s, j)) && t == [s[j]] + p;
    assert t[1..] == p;
    i := j;
  }

  /** Every arrangement of `s` has the same multiset of characters as `s`. */
  lemma {:induction false} PermsAreRearrangements(s: string, t: string)
    requires t in Perms(s)
    ensures multiset(t) == multiset(s)
    decreases |s|
  {
    if |s| > 0 {
      var i := PermsUncons(s, t);
      var p := t[1..];
      PermsAreRearrangements(Remove(s, i), p);
      assert t == [s[i]] + p;
      assert multiset(t) == multiset{s[i]} + multiset(p);
    }
  }

  /** Every string with the same multiset of characters as `s` is an
      arrangement of `s`. */
  lemma {:induction false} RearrangementsArePerms(s: string, t: string)
    requires multiset(t) == multiset(s)
    ensures t in Perms(s)
    decreases |s|
  {
    assert |t| == |multiset(t)|;
    if |s| > 0 {
      assert t[0] in multiset(s);
      var i :| 0 <= i < |s| && s[i] == t[0];
      var p := t[1..];
      assert t == [t[0]] + p;
      assert multiset(t) == multiset{t[0]} + multiset(p);
      assert multiset(p) == multiset(t) - multiset{t[0]};
      assert multiset(Remove(s, i)) == multiset(s) - multiset{s[i]};
      RearrangementsArePerms(Remove(s, i), p);
      PermsCons(s, i, p);
    }
  }

  /** The arrangements of `s` are exactly the strings with the same multiset
      of characters as `s`. */
  lemma PermsMembership(s: string)
    ensures forall t :: t in Perms(s) <==> multiset(t) == multiset(s)
  {
    forall t | t in Perms(s) ensures multiset(t) == multiset(s) {
      PermsAreRearrangements(s, t);
    }
    forall t | multiset(t) == multiset(s) ensures t in Perms(s) {
      RearrangementsArePerms(s, t);
    }
  }

  /** The lower-cased copies of a set of strings. */
  function LowerAll(ps: set<string>): set<string>
  {
    set p | p in ps :: LowerStr(p)
  }

  lemma LowerStrRemove(s: string, i: nat)
    requires i < |s|
    ensures LowerStr(Remove(s, i)) == Remove(LowerStr(s), i)
  {
    var l, r := LowerStr(Remove(s, i)), Remove(LowerStr(s), i);
    forall k | 0 <= k < |l| ensures l[k] == r[k] {
      if k < i {
        assert l[k] == Lower(s[k]);
      } else {
        assert l[k] == Lower(s[k + 1]);
      }
    }
  }

  lemma LowerStrCons(c: char, q: string)
    ensures LowerStr([c] + q) == [Lower(c)] + LowerStr(q)
  {
    var l, r := LowerStr([c] + q), [Lower(c)] + LowerStr(q);
    forall k | 0 <= k < |l| ensures l[k] == r[k] {
      if k > 0 {
        assert ([c] + q)[k] == q[k - 1];
      }
    }
  }

  /** Lower-casing every arrangement of `s` gives every arrangement of the
      lower-cased `s`, and nothing else. */
  lemma {:induction false} LowerCommutesWithPerms(s: string)
    ensures LowerAll(Perms(s)) == Perms(LowerStr(s))
    decreases |s|
  {
    var ls := LowerStr(s);
    if |s| == 0 {
      assert ls == [];
      assert LowerStr([]) == [];
    } else {
      forall u | u in LowerAll(Perms(s)) ensures u in Perms(ls) {
        var p :| p in Perms(s) && u == LowerStr(p);
        var i := PermsUncons(s, p);
        var q := p[1..];
        LowerCommutesWithPerms(Remove(s, i));
        LowerStrRemove(s, i);
        assert LowerStr(q) in LowerAll(Perms(Remove(s, i)));
        assert p == [s[i]] + q;
        LowerStrCons(s[i], q);
        PermsCons(ls, i, LowerStr(q));
      }
      forall u | u in Perms(ls) ensures u in LowerAll(Perms(s)) {
        var i := PermsUncons(ls, u);
        var v := u[1..];
        LowerCommutesWithPerms(Remove(s, i));
        LowerStrRemove(s, i);
        var q :| q in Perms(Remove(s, i)) && v == LowerStr(q);
        PermsCons(s, i, q);
        LowerStrCons(s[i], q);
        assert u == [ls[i]] + v;
      }
    }
  }

  /** The set built by `get_unique_permutations(letters)`: a string is in it
      exactly when it rearranges the lower-cased letters, so it is as long as
      the input (no shorter arrangements are produced) and it holds every
      ordering of the lower-cased letters. */
  function UniquePermutations(letters: string): (r: set<string>)
    ensures forall w :: w in r <==> multiset(w) == multiset(LowerStr(letters))
    ensures forall w :: w in r ==> |w| == |letters|
  {
    LowerCommutesWithPerms(letters);
    PermsMembership(LowerStr(letters));
    LowerAll(Perms(letters))
  }

  /** `get_unique_permutations(letters)`: the same set as a list, each string
      once. */
  method GetUniquePermutations(letters: string) returns (words: seq<string>)
    ensures NoDuplicates(words)
    ensures forall w :: w in words <==> multiset(w) == multiset(LowerStr(letters))
    ensures forall w :: w in words ==> |w| == |letters| && IsLowered(w)
  {
    words := ListOf(UniquePermutations(letters));
    forall w | w in words ensures IsLowered(w) {
      assert w in LowerAll(Perms(letters));
    }
  }

  /** Letters that differ only in case give the same result. */
  lemma UniquePermutationsIgnoreCase(a: string, b: string)
    requires LowerStr(a) == LowerStr(b)
    ensures UniquePermutations(a) == UniquePermutations(b)
  {
  }

  /** For instance "ABC" and "abc". */
  lemma UpperAndLowerLettersAgree()
    ensures UniquePermutations("ABC") == UniquePermutations("abc")
  {
    assert LowerStr("ABC") == "abc";
    assert LowerStr("abc") == "abc";
    UniquePermutationsIgnoreCase("ABC", "abc");
  }
}
