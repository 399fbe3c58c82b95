/**
 The JavaScript object operations the merge is built from: rows as finite maps
 from column name to cell, lodash `zipObject` and `pick`, `Object.values` over a
 picked object, and `Array.prototype.join(' ')`.
 */
module JsObjects {

  /** A cell of a row: a CSV field, JavaScript's `undefined`, or a match certainty. */
  datatype Cell = Absent | Text(text: string) | Certainty(score: real)

  /** A row object: column name to cell. Key order is not modelled. */
  type Row = map<string, Cell>

  predicate Distinct<T(==)>(s: seq<T>)
  {
    forall i, j :: 0 <= i < j < |s| ==> s[i] != s[j]
  }

  /** `vals[i]`, or `pad` past the end (where JavaScript reads `undefined`). */
  function At<V>(vals: seq<V>, i: nat, pad: V): V
  {
    if i < |vals| then vals[i] else pad
  }

  /**
   lodash `zipObject(keys, vals)`: assigns `keys[i] := vals[i]` from left to
   right, so a repeated key keeps its last value, a key past the end of `vals`
   gets `pad`, and values past the end of `keys` are dropped.
   */
  function ZipObject<V>(keys: seq<string>, vals: seq<V>, pad: V): (m: map<string, V>)
    ensures m.Keys == set k | k in keys
    ensures forall k :: k in m ==> m[k] == pad || m[k] in vals
  {
    if |keys| == 0 then map[]
    else
      var init := keys[..|keys| - 1];
      assert keys == init + [keys[|keys| - 1]];
      ZipObject(init, vals, pad)[keys[|keys| - 1] := At(vals, |keys| - 1, pad)]
  }

  /** The value stored under `keys[i]` is `vals[i]` when no later key repeats it. */
  lemma {:induction false} ZipObjectAt<V>(keys: seq<string>, vals: seq<V>, pad: V, i: nat)
    requires i < |keys|
    requires forall j :: i < j < |keys| ==> keys[j] != keys[i]
    ensures keys[i] in ZipObject(keys, vals, pad)
    ensures ZipObject(keys, vals, pad)[keys[i]] == At(vals, i, pad)
  {
    if i < |keys| - 1 {
      ZipObjectAt(keys[..|keys| - 1], vals, pad, i);
    }
  }

  /** With distinct keys, every position lands in its own entry. */
  lemma ZipObjectDistinct<V>(keys: seq<string>, vals: seq<V>, pad: V)
    requires Distinct(keys)
    ensures forall i :: 0 <= i < |keys| ==> ZipObject(keys, vals, pad)[keys[i]] == At(vals, i, pad)
  {
    forall i | 0 <= i < |keys|
      ensures ZipObject(keys, vals, pad)[keys[i]] == At(vals, i, pad)
    {
      ZipObjectAt(keys, vals, pad, i);
    }
  }

  /** lodash `pick(obj, selected)`: the entries of `obj` whose key is selected. */
  function Pick<V>(obj: map<string, V>, selected: seq<string>): (m: map<string, V>)
    ensures m.Keys == obj.Keys * (set k | k in selected)
    ensures forall k :: k in m ==> m[k] == obj[k]
  {
    map k | k in obj && k in selected :: obj[k]
  }

  /**
   The keys of `pick(obj, selected)` in insertion order: each selected key that
   `obj` has, at its first occurrence in `selected`.
   */
  function PickedKeys<V>(obj: map<string, V>, selected: seq<string>): (ks: seq<string>)
    ensures Distinct(ks)
    ensures forall k :: k in ks <==> k in obj && k in selected
  {
    if |selected| == 0 then []
    else
      var init := PickedKeys(obj, selected[..|selected| - 1]);
      var k := selected[|selected| - 1];
      assert selected == selected[..|selected| - 1] + [k];
      if k in obj && k !in init then init + [k] else init
  }

  /** A distinct sequence whose elements all occur in `s` is no longer than `s`. */
  lemma {:induction false} DistinctSubsetLength<T>(ks: seq<T>, s: seq<T>)
    requires Distinct(ks)
    requires forall k :: k in ks ==> k in s
    ensures |ks| <= |s|
  {
    var a := set k | k in ks;
    var b := set x | x in s;
    DistinctCard(ks);
    SeqSetCard(s);
    assert a <= b;
    assert |a| <= |b| by { SubsetCard(a, b); }
  }

  lemma {:induction false} DistinctCard<T>(ks: seq<T>)
    requires Distinct(ks)
    ensures |set k | k in ks| == |ks|
  {
    if |ks| > 0 {
      var init := ks[..|ks| - 1];
      DistinctCard(init);
      assert (set k | k in ks) == (set k | k in init) + {ks[|ks| - 1]};
      assert ks[|ks| - 1] !in init;
    }
  }

  lemma {:induction false} SeqSetCard<T>(s: seq<T>)
    ensures |set x | x in s| <= |s|
  {
    if |s| > 0 {
      var init := s[..|s| - 1];
      SeqSetCard(init);
      assert (set x | x in s) == (set x | x in init) + {s[|s| - 1]};
    }
  }

  lemma {:induction false} SubsetCard<T>(a: set<T>, b: set<T>)
    requires a <= b
    ensures |a| <= |b|
  {
    if a != {} {
      var x :| x in a;
      SubsetCard(a - {x}, b - {x});
    }
  }

  /** When the selection is distinct and every selected key is present, the picked keys are the selection. */
  lemma {:induction false} PickedKeysAll<V>(obj: map<string, V>, selected: seq<string>)
    requires Distinct(selected)
    requires forall k :: k in selected ==> k in obj
    ensures PickedKeys(obj, selected) == selected
  {
    if |selected| > 0 {
      var init := selected[..|selected| - 1];
      assert forall k :: k in init ==> k in selected;
      PickedKeysAll(obj, init);
    }
  }

  /** How `Array.prototype.join` renders a cell: `undefined` becomes the empty string. */
  function CellText(c: Cell): (s: string)
    ensures c.Text? ==> s == c.text
    ensures c.Absent? ==> s == ""
  {
    match c
    case Text(s) => s
    case Absent => ""
    case Certainty(_) => ""
  }

  /** `Array.prototype.join(' ')`. */
  function Join(parts: seq<string>): (s: string)
    ensures |parts| == 0 ==> s == ""
    ensures |parts| > 0 ==> |s| >= |parts[0]| && s[..|parts[0]|] == parts[0]
    ensures |parts| > 1 ==> |s| > |parts[0]| && s[|parts[0]|] == ' '
  {
    if |parts| == 0 then ""
    else if |parts| == 1 then parts[0]
    else parts[0] + " " + Join(parts[1..])
  }

  /**
   Length of the leading run of non-space characters. Words here are split on
   the space character only; the engine's own tokenizer is not modelled.
   */
  function WordLength(s: string): (n: nat)
    ensures n <= |s|
    ensures forall i :: 0 <= i < n ==> s[i] != ' '
    ensures n < |s| ==> s[n] == ' '
  {
    if |s| == 0 || s[0] == ' ' then 0 else 1 + WordLength(s[1..])
  }

  /**
   The words of a string separated by the space character `' '` only. This is
   not the engine's text preparation (lower-casing, removing extra spaces,
   tokenizing), which is not modelled: it is only used to state that joining
   with `' '` neither merges nor splits the parts' words.
   */
  function Words(s: string): seq<string>
    decreases |s|
  {
    if |s| == 0 then []
    else if s[0] == ' ' then Words(s[1..])
    else
      var n := WordLength(s);
      [s[..n]] + Words(s[n..])
  }

  /** Flattening of a sequence of word lists. */
  function Concat(wss: seq<seq<string>>): seq<string>
  {
    if |wss| == 0 then [] else wss[0] + Concat(wss[1..])
  }

  /** A word never runs across the separator that follows it. */
  lemma {:induction false} WordLengthBeforeSpace(a: string, b: string)
    ensures WordLength(a + " " + b) == WordLength(a)
  {
    if |a| > 0 && a[0] != ' ' {
      assert (a + " " + b)[1..] == a[1..] + " " + b;
      WordLengthBeforeSpace(a[1..], b);
    }
  }

  /** The words of `a + " " + b` are the words of `a` followed by those of `b`. */
  lemma {:induction false} WordsAcrossSpace(a: string, b: string)
    ensures Words(a + " " + b) == Words(a) + Words(b)
    decreases |a|
  {
    var s := a + " " + b;
    if |a| == 0 {
      assert s[0] == ' ' && s[1..] == b;
      assert Words(s) == Words(b);
    } else if a[0] == ' ' {
      assert s[0] == ' ' && s[1..] == a[1..] + " " + b;
      WordsAcrossSpace(a[1..], b);
      assert Words(s) == Words(s[1..]);
    } else {
      WordLengthBeforeSpace(a, b);
      var n := WordLength(a);
      assert s[0] == a[0] && s[..n] == a[..n];
      assert s[n..] == a[n..] + " " + b;
      WordsAcrossSpace(a[n..], b);
      assert Words(s) == [a[..n]] + Words(s[n..]);
      assert Words(a) == [a[..n]] + Words(a[n..]);
    }
  }

  /** The words of each part, part by part. */
  function WordsEach(parts: seq<string>): (wss: seq<seq<string>>)
    ensures |wss| == |parts|
    ensures forall i :: 0 <= i < |parts| ==> wss[i] == Words(parts[i])
  {
    if |parts| == 0 then [] else [Words(parts[0])] + WordsEach(parts[1..])
  }

  /**
   Joining with single spaces neither merges nor splits words: the words of the
   joined string are the words of each part, in order.
   */
  lemma {:induction false} WordsOfJoin(parts: seq<string>)
    ensures Words(Join(parts)) == Concat(WordsEach(parts))
  {
    if |parts| == 1 {
      assert Concat(WordsEach(parts)) == Words(parts[0]) + Concat([]);
    } else if |parts| > 1 {
      WordsAcrossSpace(parts[0], Join(parts[1..]));
      WordsOfJoin(parts[1..]);
    }
  }
}
