/**
 * The order of `std::string_view` (character-by-character, a proper prefix first) and the
 * sorted, duplicate-free name list that `TransportCatalogue::buses_` keeps with
 * `std::lower_bound` and `vector::insert` (transport_catalogue.cpp:15-20).
 */
module Names {

  /** `a < b` on strings: lexicographic, a proper prefix sorts first. */
  predicate Less(a: string, b: string)
    decreases |a|
  {
    if |b| == 0 then false
    else if |a| == 0 then true
    else if a[0] != b[0] then a[0] < b[0]
    else Less(a[1..], b[1..])
  }

  lemma {:induction false} LessIrreflexive(a: string)
    ensures !Less(a, a)
    decreases |a|
  {
    if |a| > 0 { LessIrreflexive(a[1..]); }
  }

  lemma {:induction false} LessTransitive(a: string, b: string, c: string)
    requires Less(a, b) && Less(b, c)
    ensures Less(a, c)
    decreases |a|
  {
    if |a| > 0 && a[0] == b[0] && b[0] == c[0] {
      LessTransitive(a[1..], b[1..], c[1..]);
    }
  }

  /** Any two different names are ordered one way or the other. */
  lemma {:induction false} LessTotal(a: string, b: string)
    requires a != b
    ensures Less(a, b) || Less(b, a)
    decreases |a|
  {
    if |a| > 0 && |b| > 0 && a[0] == b[0] {
      assert a == [a[0]] + a[1..] && b == [b[0]] + b[1..];
      LessTotal(a[1..], b[1..]);
    }
  }

  lemma {:induction false} LessAsymmetric(a: string, b: string)
    requires Less(a, b)
    ensures !Less(b, a)
  {
    if Less(b, a) {
      LessTransitive(a, b, a);
      LessIrreflexive(a);
    }
  }

  /** Strictly increasing: sorted and without duplicates. */
  predicate StrictlySorted(s: seq<string>) {
    forall i, j :: 0 <= i < j < |s| ==> Less(s[i], s[j])
  }

  /**
   * `std::lower_bound(s.begin(), s.end(), name)`: the first position whose name is not
   * before `name`, found by halving the range.
   */
  method LowerBound(s: seq<string>, name: string) returns (pos: nat)
    requires StrictlySorted(s)
    ensures pos <= |s|
    ensures forall i :: 0 <= i < pos ==> Less(s[i], name)
    ensures forall i :: pos <= i < |s| ==> !Less(s[i], name)
  {
    var lo, hi := 0, |s|;
    while lo < hi
      invariant 0 <= lo <= hi <= |s|
      invariant forall i :: 0 <= i < lo ==> Less(s[i], name)
      invariant forall i :: hi <= i < |s| ==> !Less(s[i], name)
      decreases hi - lo
    {
      var mid := lo + (hi - lo) / 2;
      if Less(s[mid], name) {
        forall i | lo <= i <= mid ensures Less(s[i], name) {
          if i < mid { LessTransitive(s[i], s[mid], name); }
        }
        lo := mid + 1;
      } else {
        forall i | mid <= i < hi ensures !Less(s[i], name) {
          if i > mid && Less(s[i], name) { LessTransitive(s[mid], s[i], name); }
        }
        hi := mid;
      }
    }
    pos := lo;
  }

  /** In a strictly sorted list, the lower-bound position holds `name` exactly when `name` is listed. */
  lemma LowerBoundFinds(s: seq<string>, name: string, pos: nat)
    requires StrictlySorted(s) && pos <= |s|
    requires forall i :: 0 <= i < pos ==> Less(s[i], name)
    requires forall i :: pos <= i < |s| ==> !Less(s[i], name)
    ensures (pos < |s| && s[pos] == name) <==> name in s
  {
    if name in s {
      var k :| 0 <= k < |s| && s[k] == name;
      LessIrreflexive(name);
      assert k >= pos;
    }
  }

  function InsertAt(s: seq<string>, pos: nat, name: string): (r: seq<string>)
    requires pos <= |s|
  {
    s[..pos] + [name] + s[pos..]
  }

  /** The list with `name` placed before the first entry that is not smaller than it. */
  function Inserted(s: seq<string>, name: string): seq<string>
    decreases |s|
  {
    if s == [] then [name]
    else if Less(s[0], name) then [s[0]] + Inserted(s[1..], name)
    else [name] + s
  }

  /** Inserting at the lower-bound position, as `buses_.insert(it, ...)` does, gives `Inserted`. */
  lemma {:induction false} InsertedAtLowerBound(s: seq<string>, pos: nat, name: string)
    requires pos <= |s|
    requires forall i :: 0 <= i < pos ==> Less(s[i], name)
    requires forall i :: pos <= i < |s| ==> !Less(s[i], name)
    ensures InsertAt(s, pos, name) == Inserted(s, name)
    decreases |s|
  {
    if s != [] {
      if Less(s[0], name) {
        InsertedAtLowerBound(s[1..], pos - 1, name);
        assert InsertAt(s, pos, name) == [s[0]] + InsertAt(s[1..], pos - 1, name);
      } else {
        assert InsertAt(s, pos, name) == [name] + s;
      }
    }
  }

  /** Inserting an absent name at its lower-bound position keeps the list strictly sorted. */
  lemma InsertKeepsSorted(s: seq<string>, pos: nat, name: string)
    requires StrictlySorted(s) && pos <= |s| && name !in s
    requires forall i :: 0 <= i < pos ==> Less(s[i], name)
    requires forall i :: pos <= i < |s| ==> !Less(s[i], name)
    ensures StrictlySorted(InsertAt(s, pos, name))
    ensures |InsertAt(s, pos, name)| == |s| + 1
    ensures forall x :: x in InsertAt(s, pos, name) <==> x == name || x in s
  {
    var r := InsertAt(s, pos, name);
    forall i | pos <= i < |s| ensures Less(name, s[i]) {
      LessTotal(s[i], name);
    }
    forall i, j | 0 <= i < j < |r| ensures Less(r[i], r[j]) {
      if j == pos {
        assert r[i] == s[i];
      } else if i == pos {
        assert r[j] == s[j - 1];
      } else if i < pos && j > pos {
        assert r[i] == s[i] && r[j] == s[j - 1];
        LessTransitive(s[i], name, s[j - 1]);
      }
    }
  }
}
