/** `clean_values` (prepTM.py:79-80): undo bracket defanging and trim. */
module ValueCleaner {
  import opened Strings

  /** No `[` and no `]` anywhere in `s`. */
  predicate NoBrackets(s: string) {
    '[' !in s && ']' !in s
  }

  /** What a value looks like after cleaning: bracket-free and stripped. */
  predicate IsClean(s: string) {
    NoBrackets(s) && IsStripped(s)
  }

  /** `v.replace('[', '').replace(']', '').strip()`. */
  function CleanValue(v: string): (r: string)
    ensures IsClean(r)
    ensures |r| <= |v|
  {
    RemoveCharMembers(v, '[');
    RemoveCharMembers(RemoveChar(v, '['), ']');
    StripMembers(RemoveChar(RemoveChar(v, '['), ']'));
    Strip(RemoveChar(RemoveChar(v, '['), ']'))
  }

  /** The list comprehension of `clean_values`: one cleaned value per input,
      in the same order, the i-th depending on the i-th input only. */
  function CleanValues(vals: seq<string>): (r: seq<string>)
    ensures |r| == |vals|
  {
    seq(|vals|, i requires 0 <= i < |vals| => CleanValue(vals[i]))
  }

  /** Every value `clean_values` returns is clean and no longer than its
      input. */
  lemma CleanValuesClean(vals: seq<string>)
    ensures forall i :: 0 <= i < |vals| ==> IsClean(CleanValues(vals)[i]) && |CleanValues(vals)[i]| <= |vals[i]|
  {
  }

  /** A value that is already clean comes back unchanged. */
  lemma CleanValueOfClean(v: string)
    requires IsClean(v)
    ensures CleanValue(v) == v
  {
    RemoveCharAbsent(v, '[');
    RemoveCharAbsent(v, ']');
    StripStripped(v);
  }

  /** Cleaning is idempotent. */
  lemma CleanValueIdempotent(v: string)
    ensures CleanValue(CleanValue(v)) == CleanValue(v)
  {
    CleanValueOfClean(CleanValue(v));
  }

  /** `clean_values` is idempotent. */
  lemma CleanValuesIdempotent(vals: seq<string>)
    ensures CleanValues(CleanValues(vals)) == CleanValues(vals)
  {
    var once := CleanValues(vals);
    forall i | 0 <= i < |vals|
      ensures CleanValues(once)[i] == once[i]
    {
      CleanValueIdempotent(vals[i]);
    }
  }

  /** `clean_values` works value by value: a result depends on its input
      value alone, not on its position or on the other values. */
  lemma CleanValuesLocal(a: seq<string>, i: nat, b: seq<string>, j: nat)
    requires i < |a| && j < |b| && a[i] == b[j]
    ensures CleanValues(a)[i] == CleanValues(b)[j]
  {
  }

  /** So it distributes over concatenation, and keeps order. */
  lemma CleanValuesConcat(a: seq<string>, b: seq<string>)
    ensures CleanValues(a + b) == CleanValues(a) + CleanValues(b)
  {
    var l, r := CleanValues(a + b), CleanValues(a) + CleanValues(b);
    assert |l| == |r|;
    forall i | 0 <= i < |l| ensures l[i] == r[i] {
      CleanValuesAt(a, b, i);
    }
  }

  /** One position of the concatenation. */
  lemma CleanValuesAt(a: seq<string>, b: seq<string>, i: nat)
    requires i < |a| + |b|
    ensures CleanValues(a + b)[i] == (CleanValues(a) + CleanValues(b))[i]
  {
    if i < |a| {
      CleanValuesLocal(a + b, i, a, i);
    } else {
      CleanValuesLocal(a + b, i, b, i - |a|);
    }
  }

  /** Cleaning is determined by the bracket-free text alone: if removing the
      brackets from `v` leaves whitespace `a`, a stripped middle `m` and
      whitespace `b`, then `m` is the cleaned value. */
  lemma CleanValueCharacterised(v: string, a: string, m: string, b: string)
    requires RemoveChar(RemoveChar(v, '['), ']') == a + m + b
    requires AllSpace(a) && AllSpace(b) && IsStripped(m)
    ensures CleanValue(v) == m
  {
    StripUnique(a, m, b);
  }

  /** Bracket removal works piece by piece, so a bracket is dropped wherever
      it stands in the value. */
  lemma UnbracketConcat(v: string, w: string)
    ensures RemoveChar(RemoveChar(v + w, '['), ']')
         == RemoveChar(RemoveChar(v, '['), ']') + RemoveChar(RemoveChar(w, '['), ']')
  {
    RemoveCharConcat(v, w, '[');
    RemoveCharConcat(RemoveChar(v, '['), RemoveChar(w, '['), ']');
  }

  // One literal evaluation per lemma: the solver evaluates a function
  // applied to literals, but not two such evaluations chained in one proof.
  /** A non-empty cell made only of brackets cleans to the empty string. */
  lemma CleanValueBracketsOnly()
    ensures CleanValue("[]") == ""
  {
    assert RemoveChar("[]", '[') == "]";
    assert RemoveChar("]", ']') == "";
  }

  lemma OpenBracketOfBareDomain()
    ensures RemoveChar("[b.com]", '[') == "b.com]"
  {}

  lemma CloseBracketOfBareDomain()
    ensures RemoveChar("b.com]", ']') == "b.com"
  {}

  lemma DomainStripped()
    ensures IsStripped("b.com")
  {
  }

  /** A value whose text without brackets is already stripped cleans to
      that text. */
  lemma CleanValueOfUnbracketed(v: string, w: string)
    requires RemoveChar(RemoveChar(v, '['), ']') == w && IsStripped(w)
    ensures CleanValue(v) == w
  {
    StripStripped(w);
  }

  /** A bracketed domain loses its brackets. */
  lemma CleanValueBracketedDomain()
    ensures CleanValue("[b.com]") == "b.com"
  {
    OpenBracketOfBareDomain();
    CloseBracketOfBareDomain();
    DomainStripped();
    CleanValueOfUnbracketed("[b.com]", "b.com");
  }

  /** A plain domain is already clean. */
  lemma CleanValuePlainDomain()
    ensures CleanValue("a.com") == "a.com"
  {
    assert "a.com"[0] == 'a' && "a.com"[4] == 'm';
    assert '[' !in "a.com" && ']' !in "a.com";
    CleanValueOfClean("a.com");
  }
}
