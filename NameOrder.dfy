/**
 * GetAllLanguages (Services/LanguageGameService.cs:75-78): the catalog ordered
 * by name with a stable sort, as `OrderBy` is. Names are compared ordinally,
 * character code by character code.
 */
module NameOrder {
  import opened Models

  /** Ordinal string order: `a` is a prefix of `b`, or is smaller at the first difference. */
  predicate NameLeq(a: string, b: string)
    ensures NameLeq(a, b) && |a| > 0 ==> |b| > 0 && a[0] <= b[0]
  {
    |a| == 0 || (|b| > 0 && (a[0] < b[0] || (a[0] == b[0] && NameLeq(a[1..], b[1..]))))
  }

  lemma {:induction false} NameLeqReflexive(a: string)
    ensures NameLeq(a, a)
  {
    if |a| > 0 { NameLeqReflexive(a[1..]); }
  }

  lemma {:induction false} NameLeqTotal(a: string, b: string)
    ensures NameLeq(a, b) || NameLeq(b, a)
  {
    if |a| > 0 && |b| > 0 && a[0] == b[0] { NameLeqTotal(a[1..], b[1..]); }
  }

  lemma {:induction false} NameLeqAntisymmetric(a: string, b: string)
    requires NameLeq(a, b) && NameLeq(b, a)
    ensures a == b
  {
    if |a| > 0 && |b| > 0 {
      NameLeqAntisymmetric(a[1..], b[1..]);
      assert a == [a[0]] + a[1..] && b == [b[0]] + b[1..];
    }
  }

  lemma {:induction false} NameLeqTransitive(a: string, b: string, c: string)
    requires NameLeq(a, b) && NameLeq(b, c)
    ensures NameLeq(a, c)
  {
    if |a| > 0 && a[0] == b[0] && b[0] == c[0] { NameLeqTransitive(a[1..], b[1..], c[1..]); }
  }

  /** Non-decreasing by name. */
  ghost predicate SortedByName(s: seq<Language>) {
    forall i, j :: 0 <= i < j < |s| ==> NameLeq(s[i].Name, s[j].Name)
  }

  /** The entries named `n`, in their order in `s`. */
  function WithName(s: seq<Language>, n: string): seq<Language> {
    if s == [] then [] else (if s[0].Name == n then [s[0]] else []) + WithName(s[1..], n)
  }

  /** Place `l` before the first entry whose name is not smaller than its own. */
  function Insert(l: Language, s: seq<Language>): (r: seq<Language>)
    ensures multiset(r) == multiset(s) + multiset{l}
  {
    if s == [] then [l]
    else if NameLeq(l.Name, s[0].Name) then [l] + s
    else
      assert s == [s[0]] + s[1..];
      [s[0]] + Insert(l, s[1..])
  }

  lemma {:induction false} InsertSorted(l: Language, s: seq<Language>)
    requires SortedByName(s)
    ensures SortedByName(Insert(l, s))
  {
    if s != [] && !NameLeq(l.Name, s[0].Name) {
      InsertSorted(l, s[1..]);
      NameLeqTotal(l.Name, s[0].Name);
      var r := Insert(l, s);
      forall j | 0 < j < |r| ensures NameLeq(r[0].Name, r[j].Name) {
        assert r[j] in multiset(s[1..]) + multiset{l};
        if r[j] == l {
        } else {
          var k :| 0 <= k < |s[1..]| && s[1..][k] == r[j];
          assert s[1..][k] == s[k + 1];
        }
      }
    } else if s != [] {
      var r := Insert(l, s);
      forall j | 1 < j < |r| ensures NameLeq(l.Name, r[j].Name) {
        NameLeqTransitive(l.Name, s[0].Name, r[j].Name);
      }
    }
  }

  lemma {:induction false} InsertWithName(l: Language, s: seq<Language>, n: string)
    ensures WithName(Insert(l, s), n) == (if l.Name == n then [l] else []) + WithName(s, n)
  {
    if s == [] {
    } else if NameLeq(l.Name, s[0].Name) {
      assert ([l] + s)[1..] == s;
    } else {
      InsertWithName(l, s[1..], n);
      NameLeqReflexive(l.Name);
      assert s == [s[0]] + s[1..];
      WithNamePastHead(l, s[0], Insert(l, s[1..]), s[1..], n);
    }
  }

  /** The inductive step of InsertWithName: `l` moves past an entry with another name. */
  lemma WithNamePastHead(l: Language, head: Language, inserted: seq<Language>, rest: seq<Language>, n: string)
    requires head.Name != l.Name
    requires WithName(inserted, n) == (if l.Name == n then [l] else []) + WithName(rest, n)
    ensures WithName([head] + inserted, n) == (if l.Name == n then [l] else []) + WithName([head] + rest, n)
  {
    assert ([head] + inserted)[1..] == inserted;
    assert ([head] + rest)[1..] == rest;
  }

  /**
   * GetAllLanguages: the catalog sorted by name; the same entries, and entries
   * with equal names keep their catalog order.
   */
  function GetAllLanguages(catalog: seq<Language>): (r: seq<Language>)
    ensures SortedByName(r)
    ensures multiset(r) == multiset(catalog)
    ensures forall n :: WithName(r, n) == WithName(catalog, n)
  {
    if catalog == [] then []
    else
      var rest := GetAllLanguages(catalog[1..]);
      InsertSorted(catalog[0], rest);
      forall n ensures WithName(Insert(catalog[0], rest), n) == WithName(catalog, n) {
        InsertWithName(catalog[0], rest, n);
      }
      assert catalog == [catalog[0]] + catalog[1..];
      Insert(catalog[0], rest)
  }
}
