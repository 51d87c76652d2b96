/** Vocabulary shared by both list containers of lab7/main.cpp: the two
    failures they signal, the outcome of an operation, and the sequence-level
    meaning of indexed insertion, indexed removal and the textual rendering
    `[v1, v2, ..., vn]`. */
module ListSpec {

  /** The two failures. The source throws `std::out_of_range` for both and
      tells them apart only by the message: "List is empty" or "Index out ". */
  datatype ListError = EmptyList | IndexOutOfRange

  /** Outcome of an operation that may throw: the value it returns, or the
      failure it signals. */
  datatype Result<T> = Ok(value: T) | Err(error: ListError)

  /** `find`'s answer: an index, or no match (a null pointer in the source). */
  datatype Option<T> = None | Some(value: T)

  /** The sequence `s` with `x` placed before the element at index `i`
      (at the end when `i == |s|`). */
  function InsertAt<T>(s: seq<T>, i: nat, x: T): (r: seq<T>)
    requires i <= |s|
    ensures |r| == |s| + 1 && r[i] == x
    ensures forall j :: 0 <= j < i ==> r[j] == s[j]
    ensures forall j :: i < j < |r| ==> r[j] == s[j - 1]
  {
    s[..i] + [x] + s[i..]
  }

  /** The sequence `s` without its element at index `i`. */
  function RemoveAt<T>(s: seq<T>, i: nat): (r: seq<T>)
    requires i < |s|
    ensures |r| == |s| - 1
    ensures forall j :: 0 <= j < i ==> r[j] == s[j]
    ensures forall j :: i <= j < |r| ==> r[j] == s[j + 1]
  {
    s[..i] + s[i + 1..]
  }

  /** No element occurs twice: the nodes of a chain are pairwise different.
      Stated one position at a time (each element differs from all that
      follow it) so that the facts it makes available are linear in the
      length; `DistinctAt` extracts a single disequality and
      `DistinctPairwise` shows it means the same as the pairwise statement. */
  ghost predicate Distinct<T>(s: seq<T>)
  {
    DistinctFrom(s, 0)
  }

  /** Each element from position `k` on differs from all that follow it. */
  ghost predicate DistinctFrom<T>(s: seq<T>, k: nat)
    decreases |s| - k
  {
    k >= |s| || ((forall j :: k < j < |s| ==> s[j] != s[k]) && DistinctFrom(s, k + 1))
  }

  /** Every two positions from `k` on hold different elements. */
  ghost predicate PairwiseFrom<T>(s: seq<T>, k: nat)
  {
    forall i, j :: k <= i < j < |s| ==> s[i] != s[j]
  }

  lemma {:induction false} DistinctFromAt<T>(s: seq<T>, k: nat, i: nat, j: nat)
    requires DistinctFrom(s, k) && k <= i < j < |s|
    ensures s[i] != s[j]
    decreases i - k
  {
    if k < i {
      DistinctFromAt(s, k + 1, i, j);
    }
  }

  /** Two different positions of a duplicate-free sequence hold different
      elements. */
  lemma DistinctAt<T>(s: seq<T>, i: nat, j: nat)
    requires Distinct(s) && i < j < |s|
    ensures s[i] != s[j]
  {
    DistinctFromAt(s, 0, i, j);
  }

  lemma {:induction false} DistinctFromPairwise<T>(s: seq<T>, k: nat)
    ensures DistinctFrom(s, k) <==> PairwiseFrom(s, k)
    decreases |s| - k
  {
    if k < |s| {
      DistinctFromPairwise(s, k + 1);
      if DistinctFrom(s, k) {
        forall i, j | k <= i < j < |s| ensures s[i] != s[j] {
          DistinctFromAt(s, k, i, j);
        }
      }
    }
  }

  /** The position-by-position and the pairwise readings of
      "duplicate-free" agree. */
  lemma DistinctPairwise<T>(s: seq<T>)
    ensures Distinct(s) <==> (forall i, j :: 0 <= i < j < |s| ==> s[i] != s[j])
  {
    DistinctFromPairwise(s, 0);
  }

  /** A contiguous piece of a duplicate-free sequence is duplicate-free
      (what is left after dropping the first or the last node). */
  lemma DistinctSlice<T>(s: seq<T>, lo: nat, hi: nat)
    requires Distinct(s) && lo <= hi <= |s|
    ensures Distinct(s[lo..hi])
  {
    DistinctPairwise(s);
    var t := s[lo..hi];
    forall a, b | 0 <= a < b < |t| ensures t[a] != t[b] {
      assert t[a] == s[lo + a] && t[b] == s[lo + b];
    }
    DistinctPairwise(t);
  }

  /** Adding an element not yet present at either end keeps a sequence
      duplicate-free. */
  lemma DistinctExtend<T>(s: seq<T>, x: T)
    requires Distinct(s) && x !in s
    ensures Distinct([x] + s) && Distinct(s + [x])
  {
    DistinctPairwise(s);
    var f, b := [x] + s, s + [x];
    forall i, j | 0 <= i < j < |f| ensures f[i] != f[j] {
      assert f[j] == s[j - 1];
      if i > 0 {
        assert f[i] == s[i - 1];
      }
    }
    forall i, j | 0 <= i < j < |b| ensures b[i] != b[j] {
      assert b[i] == s[i];
      if j < |s| {
        assert b[j] == s[j];
      }
    }
    DistinctPairwise(f);
    DistinctPairwise(b);
  }

  /** Inserting an element not yet present keeps a sequence duplicate-free. */
  lemma InsertAtDistinct<T>(s: seq<T>, i: nat, x: T)
    requires i <= |s| && Distinct(s) && x !in s
    ensures Distinct(InsertAt(s, i, x))
  {
    var r := InsertAt(s, i, x);
    DistinctPairwise(s);
    forall a, b | 0 <= a < b < |r| ensures r[a] != r[b] {
      var a' := if a < i then a else a - 1;
      var b' := if b < i then b else b - 1;
      if a == i {
        assert r[b] == s[b'];
      } else if b == i {
        assert r[a] == s[a'];
      } else {
        assert r[a] == s[a'] && r[b] == s[b'] && a' < b';
      }
    }
    DistinctPairwise(r);
  }

  /** Removing an element keeps a sequence duplicate-free, and the removed
      element no longer occurs. */
  lemma RemoveAtDistinct<T>(s: seq<T>, i: nat)
    requires i < |s| && Distinct(s)
    ensures Distinct(RemoveAt(s, i)) && s[i] !in RemoveAt(s, i)
  {
    var r := RemoveAt(s, i);
    DistinctPairwise(s);
    forall a, b | 0 <= a < b < |r| ensures r[a] != r[b] {
      var a' := if a < i then a else a + 1;
      var b' := if b < i then b else b + 1;
      assert r[a] == s[a'] && r[b] == s[b'] && a' < b';
    }
    forall a | 0 <= a < |r| ensures r[a] != s[i] {
      var a' := if a < i then a else a + 1;
      assert r[a] == s[a'];
    }
    DistinctPairwise(r);
  }

  /** Removing what was just inserted at `i` gives back the original sequence. */
  lemma RemoveAfterInsert<T>(s: seq<T>, i: nat, x: T)
    requires i <= |s|
    ensures RemoveAt(InsertAt(s, i, x), i) == s
  {
    var t := RemoveAt(InsertAt(s, i, x), i);
    assert |t| == |s|;
    forall j | 0 <= j < |s| ensures t[j] == s[j] {
    }
  }

  /** Re-inserting the removed element at its old index restores the sequence. */
  lemma InsertAfterRemove<T>(s: seq<T>, i: nat)
    requires i < |s|
    ensures InsertAt(RemoveAt(s, i), i, s[i]) == s
  {
    var t := InsertAt(RemoveAt(s, i), i, s[i]);
    assert |t| == |s|;
    forall j | 0 <= j < |s| ensures t[j] == s[j] {
    }
  }

  /** Removing index 0 is dropping the first element (how both classes
      delegate `remove(0)` to `pop_front`). */
  lemma RemoveAtFront<T>(s: seq<T>)
    requires s != []
    ensures RemoveAt(s, 0) == s[1..]
  {
    assert s[..0] == [];
  }

  /** Inserting at index 0 is putting the element in front (how both classes
      delegate `insert(0, x)` to `push_front`), and inserting at `|s|` is
      appending (how the doubly-linked class delegates to `push_back`). */
  lemma InsertAtEnds<T>(s: seq<T>, x: T)
    ensures InsertAt(s, 0, x) == [x] + s
    ensures InsertAt(s, |s|, x) == s + [x]
  {
    assert s[..0] == [] && s[0..] == s;
    assert s[..|s|] == s && s[|s|..] == [];
  }

  /** The parts separated by `sep`: nothing before the first part and nothing
      after the last. */
  function Join(parts: seq<string>, sep: string): (r: string)
  {
    if |parts| == 0 then ""
    else if |parts| == 1 then parts[0]
    else parts[0] + sep + Join(parts[1..], sep)
  }

  /** Appending one part adds exactly one separator, in front of it. */
  lemma {:induction false} JoinSnoc(parts: seq<string>, x: string, sep: string)
    requires parts != []
    ensures Join(parts + [x], sep) == Join(parts, sep) + sep + x
  {
    if |parts| == 1 {
      assert parts + [x] == [parts[0], x];
      assert ([parts[0], x])[1..] == [x];
    } else {
      assert (parts + [x])[1..] == parts[1..] + [x];
      JoinSnoc(parts[1..], x, sep);
    }
  }

  /** Joining a concatenation puts exactly one separator at the seam. */
  lemma {:induction false} JoinAppend(p: seq<string>, q: seq<string>, sep: string)
    requires p != [] && q != []
    ensures Join(p + q, sep) == Join(p, sep) + sep + Join(q, sep)
    decreases |q|
  {
    if |q| == 1 {
      assert q == [q[0]];
      JoinSnoc(p, q[0], sep);
    } else {
      var front := q[..|q| - 1];
      var last := q[|q| - 1];
      assert q == front + [last];
      assert p + q == (p + front) + [last];
      JoinAppend(p, front, sep);
      JoinSnoc(p + front, last, sep);
      JoinSnoc(front, last, sep);
    }
  }

  /** The text of every element, in order. */
  function Shown<T>(show: T -> string, s: seq<T>): (r: seq<string>)
  {
    seq(|s|, i requires 0 <= i < |s| => show(s[i]))
  }

  /** The texts of a concatenation are the texts of its parts, in order:
      rendering never reorders, drops or merges elements. */
  lemma ShownAppend<T>(show: T -> string, s: seq<T>, t: seq<T>)
    ensures Shown(show, s + t) == Shown(show, s) + Shown(show, t)
  {
    assert |Shown(show, s + t)| == |Shown(show, s) + Shown(show, t)|;
  }

  /** The rendering of a list by `operator<<`: "[", the elements' texts
      separated by ", ", then "]". `show` stands for `operator<<` of `T`.
      The text is bracketed, and the first element's text follows "[". */
  function ListText<T>(show: T -> string, s: seq<T>): (r: string)
    ensures |r| >= 2 && r[0] == '[' && r[|r| - 1] == ']'
    ensures s != [] ==> 1 + |show(s[0])| < |r| && r[1..1 + |show(s[0])|] == show(s[0])
  {
    "[" + Join(Shown(show, s), ", ") + "]"
  }

  /** An empty list renders as "[]", a one-element list with no separator. */
  lemma ListTextShort<T>(show: T -> string, x: T)
    ensures ListText(show, []) == "[]"
    ensures ListText(show, [x]) == "[" + show(x) + "]"
  {
    assert Shown(show, [x]) == [show(x)];
  }

  /** Rendering `s + t` for non-empty `s` and `t` is rendering `s` and `t`
      with exactly one ", " between them: the separator stands between
      elements only, never after the last. */
  lemma ListTextAppend<T>(show: T -> string, s: seq<T>, t: seq<T>)
    requires s != [] && t != []
    ensures ListText(show, s + t)
         == "[" + Join(Shown(show, s), ", ") + ", " + Join(Shown(show, t), ", ") + "]"
  {
    ShownAppend(show, s, t);
    JoinAppend(Shown(show, s), Shown(show, t), ", ");
  }

  /** What `operator<<` has written after the opening "[" once it has
      passed the first `k` elements: their texts joined by ", ", and one
      more ", " when an element follows. */
  ghost function Written<T>(show: T -> string, s: seq<T>, k: nat): (r: string)
    requires k <= |s|
  {
    Join(Shown(show, s[..k]), ", ") + (if 0 < k < |s| then ", " else "")
  }

  /** Passing element `k` writes its text, then ", " when it has a successor. */
  lemma WrittenStep<T>(show: T -> string, s: seq<T>, k: nat)
    requires k < |s|
    ensures Written(show, s, k + 1) == Written(show, s, k) + show(s[k]) + (if k + 1 < |s| then ", " else "")
  {
    assert s[..k + 1] == s[..k] + [s[k]];
    ShownAppend(show, s[..k], [s[k]]);
    assert Shown(show, [s[k]]) == [show(s[k])];
    if k == 0 {
      assert Shown(show, s[..1]) == [show(s[0])];
    } else {
      JoinSnoc(Shown(show, s[..k]), show(s[k]), ", ");
    }
  }

  /** Past the last element, everything but the closing "]" is written. */
  lemma WrittenAll<T>(show: T -> string, s: seq<T>)
    ensures ListText(show, s) == "[" + Written(show, s, |s|) + "]"
  {
    assert s[..|s|] == s;
  }

  /** The nodes of a chain in the opposite order. */
  function Reversed<T>(s: seq<T>): (r: seq<T>)
  {
    if s == [] then [] else Reversed(s[1..]) + [s[0]]
  }

  /** Reversal keeps the length and reads the sequence back to front. */
  lemma {:induction false} ReversedAt<T>(s: seq<T>)
    ensures |Reversed(s)| == |s|
    ensures forall k :: 0 <= k < |s| ==> Reversed(s)[k] == s[|s| - 1 - k]
  {
    if s != [] {
      ReversedAt(s[1..]);
    }
  }

  /** Reversing a sequence extended at the back puts that element in front. */
  lemma ReversedSnoc<T>(s: seq<T>, x: T)
    ensures Reversed(s + [x]) == [x] + Reversed(s)
  {
    ReversedAt(s + [x]);
    ReversedAt(s);
    assert |Reversed(s + [x])| == |[x] + Reversed(s)|;
    forall k | 0 <= k < |s| + 1 ensures Reversed(s + [x])[k] == ([x] + Reversed(s))[k] {
    }
  }
}
