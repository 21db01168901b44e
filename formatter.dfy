/** `format_som_entries` (prepTM.py:83-104): per-type value lists from the
    CSV rows and the URLs, emitted as rows in the fixed template order. */
module RowFormatter {
  import opened Wrappers
  import opened MessageLoader
  import opened ValueCleaner

  /** One output row: its `Type`, `Object` and `Description` columns. */
  datatype SomEntry = SomEntry(kind: string, obj: string, description: string)

  /** `TEMPLATE_TYPES`, with its two `"ip"` slots (commented IPv4 and IPv6 in
      the source, but both read the same list). */
  const TemplateTypes: seq<string> := ["domain", "url", "ip", "ip", "sha1", "sha256", "email_sender"]

  /** `r.get(col)` is truthy: the column is there and its cell is not empty. */
  predicate HasValue(r: Row, col: string) {
    col in r && r[col] != ""
  }

  /** `[r[col] for r in rows if r.get(col)]`. */
  function ColumnValues(rows: Table, col: string): seq<string> {
    if rows == [] then []
    else (if HasValue(rows[0], col) then [rows[0][col]] else []) + ColumnValues(rows[1..], col)
  }

  /** The `extracted` dictionary: the `IP` column feeds the `"ip"` key, and
      the URLs are cleaned but never filtered. */
  function Extracted(rows: Table, urls: seq<string>): map<string, seq<string>> {
    map[
      "domain" := CleanValues(ColumnValues(rows, "domain")),
      "ip" := CleanValues(ColumnValues(rows, "IP")),
      "sha1" := CleanValues(ColumnValues(rows, "sha1")),
      "sha256" := CleanValues(ColumnValues(rows, "sha256")),
      "email_sender" := CleanValues(ColumnValues(rows, "email_sender")),
      "url" := CleanValues(urls)
    ]
  }

  /** `extracted.get(t, [])`. */
  function Lookup(extracted: map<string, seq<string>>, t: string): seq<string> {
    if t in extracted then extracted[t] else []
  }

  /** The description shared by every row: the caller's prefix, or
      `"cert "` and the ISO date of today (passed in) when none is given. */
  function Description(descPrefix: Option<string>, today: string): string {
    match descPrefix
    case None => "cert " + today
    case Some(d) => d
  }

  /** The rows the inner loop appends for one template slot. */
  function Group(kind: string, vals: seq<string>, desc: string): seq<SomEntry> {
    seq(|vals|, k requires 0 <= k < |vals| => SomEntry(kind, vals[k], desc))
  }

  /** The rows the outer loop has appended after going through `types`. */
  function EmitRows(types: seq<string>, extracted: map<string, seq<string>>, desc: string): seq<SomEntry>
    decreases |types|
  {
    if types == [] then []
    else
      var t := types[|types| - 1];
      EmitRows(types[..|types| - 1], extracted, desc) + Group(t, Lookup(extracted, t), desc)
  }

  /** What `format_som_entries` returns. */
  function FormatSpec(rows: Table, urls: seq<string>, descPrefix: Option<string>, today: string): seq<SomEntry> {
    EmitRows(TemplateTypes, Extracted(rows, urls), Description(descPrefix, today))
  }

  /** `format_som_entries`: for each template slot, append one row per value
      of that slot's list. */
  method FormatSomEntries(rows: Table, urls: seq<string>, descPrefix: Option<string>, today: string)
    returns (output: seq<SomEntry>)
    ensures output == FormatSpec(rows, urls, descPrefix, today)
  {
    var desc := Description(descPrefix, today);
    var extracted := Extracted(rows, urls);
    var types := TemplateTypes;
    output := [];
    for i := 0 to |types|
      invariant output == EmitRows(types[..i], extracted, desc)
    {
      var t := types[i];
      var vals := Lookup(extracted, t);
      for j := 0 to |vals|
        invariant output == EmitRows(types[..i], extracted, desc) + Group(t, vals[..j], desc)
      {
        output := output + [SomEntry(t, vals[j], desc)];
        GroupStep(t, vals, j, desc);
      }
      assert vals[..|vals|] == vals;
      EmitRowsStep(types, i, extracted, desc);
    }
    assert types[..|types|] == types;
  }

  /** One pass of the inner loop. */
  lemma GroupStep(kind: string, vals: seq<string>, j: nat, desc: string)
    requires j < |vals|
    ensures Group(kind, vals[..j + 1], desc) == Group(kind, vals[..j], desc) + [SomEntry(kind, vals[j], desc)]
  {
  }

  /** One pass of the outer loop. */
  lemma EmitRowsStep(types: seq<string>, i: nat, extracted: map<string, seq<string>>, desc: string)
    requires i < |types|
    ensures EmitRows(types[..i + 1], extracted, desc) ==
            EmitRows(types[..i], extracted, desc) + Group(types[i], Lookup(extracted, types[i]), desc)
  {
    assert types[..i + 1][..i] == types[..i];
  }

  // ---------------------------------------------------------------------
  // The CSV columns

  /** Column values split like the rows they come from. */
  lemma {:induction false} ColumnValuesConcat(a: Table, b: Table, col: string)
    ensures ColumnValues(a + b, col) == ColumnValues(a, col) + ColumnValues(b, col)
  {
    if a == [] {
      assert a + b == b;
    } else {
      assert (a + b)[1..] == a[1..] + b;
      ColumnValuesConcat(a[1..], b, col);
    }
  }

  /** A column's values are its non-empty cells, in row order, one per row
      at most. */
  lemma {:induction false} ColumnValuesAreCells(rows: Table, col: string)
    ensures |ColumnValues(rows, col)| <= |rows|
    ensures forall v :: v in ColumnValues(rows, col) ==> v != ""
    ensures forall v :: v in ColumnValues(rows, col) ==> exists k :: 0 <= k < |rows| && HasValue(rows[k], col) && rows[k][col] == v
  {
    if rows != [] {
      ColumnValuesAreCells(rows[1..], col);
      forall v | v in ColumnValues(rows, col)
        ensures exists k :: 0 <= k < |rows| && HasValue(rows[k], col) && rows[k][col] == v
      {
        if !(HasValue(rows[0], col) && rows[0][col] == v) {
          var k :| 0 <= k < |rows[1..]| && HasValue(rows[1..][k], col) && rows[1..][k][col] == v;
          assert rows[k + 1] == rows[1..][k];
        }
      }
    }
  }

  /** The filter is decided per cell, not per row: two tables whose cells in
      column `col` agree (present and non-empty in the same rows, with the
      same text) give the same values, whatever their other columns hold. */
  lemma {:induction false} ColumnValuesPerCell(rows: Table, other: Table, col: string)
    requires |rows| == |other|
    requires forall k :: 0 <= k < |rows| ==>
               (HasValue(rows[k], col) <==> HasValue(other[k], col)) &&
               (HasValue(rows[k], col) ==> rows[k][col] == other[k][col])
    ensures ColumnValues(rows, col) == ColumnValues(other, col)
  {
    if rows != [] {
      ColumnValuesPerCell(rows[1..], other[1..], col);
    }
  }

  /** A column filled in every row gives every cell, in order. */
  lemma {:induction false} ColumnValuesFull(rows: Table, col: string)
    requires forall k :: 0 <= k < |rows| ==> col in rows[k] && rows[k][col] != ""
    ensures |ColumnValues(rows, col)| == |rows|
    ensures forall k :: 0 <= k < |rows| ==> ColumnValues(rows, col)[k] == rows[k][col]
  {
    if rows != [] {
      ColumnValuesFull(rows[1..], col);
    }
  }

  /** A column missing or empty in every row gives nothing, and not an error. */
  lemma {:induction false} ColumnValuesAbsent(rows: Table, col: string)
    requires forall k :: 0 <= k < |rows| ==> !HasValue(rows[k], col)
    ensures ColumnValues(rows, col) == []
  {
    if rows != [] {
      ColumnValuesAbsent(rows[1..], col);
    }
  }

  // ---------------------------------------------------------------------
  // The emitted rows

  /** The objects of the rows of kind `t`, in order. */
  function ObjectsOfKind(out: seq<SomEntry>, t: string): seq<string>
    decreases |out|
  {
    if out == [] then []
    else
      var last := out[|out| - 1];
      ObjectsOfKind(out[..|out| - 1], t) + (if last.kind == t then [last.obj] else [])
  }

  /** The values of every slot of kind `t` in `types`, slot after slot. */
  function ValuesOfKind(types: seq<string>, extracted: map<string, seq<string>>, t: string): seq<string>
    decreases |types|
  {
    if types == [] then []
    else
      var last := types[|types| - 1];
      ValuesOfKind(types[..|types| - 1], extracted, t) + (if last == t then Lookup(extracted, t) else [])
  }

  lemma {:induction false} ObjectsOfKindConcat(a: seq<SomEntry>, b: seq<SomEntry>, t: string)
    ensures ObjectsOfKind(a + b, t) == ObjectsOfKind(a, t) + ObjectsOfKind(b, t)
    decreases |b|
  {
    if b == [] {
      assert a + b == a;
    } else {
      assert (a + b)[..|a + b| - 1] == a + b[..|b| - 1];
      ObjectsOfKindConcat(a, b[..|b| - 1], t);
    }
  }

  lemma {:induction false} ObjectsOfKindGroup(kind: string, vals: seq<string>, desc: string, t: string)
    ensures ObjectsOfKind(Group(kind, vals, desc), t) == if kind == t then vals else []
    decreases |vals|
  {
    if vals != [] {
      var init := vals[..|vals| - 1];
      assert Group(kind, vals, desc)[..|vals| - 1] == Group(kind, init, desc);
      ObjectsOfKindGroup(kind, init, desc, t);
      assert vals == init + [vals[|vals| - 1]];
    }
  }

  /** The rows of kind `t` carry exactly the values of the slots of kind `t`. */
  lemma {:induction false} EmitRowsObjects(types: seq<string>, extracted: map<string, seq<string>>, desc: string, t: string)
    ensures ObjectsOfKind(EmitRows(types, extracted, desc), t) == ValuesOfKind(types, extracted, t)
    decreases |types|
  {
    if types != [] {
      var last := types[|types| - 1];
      var init := types[..|types| - 1];
      EmitRowsObjects(init, extracted, desc, t);
      ObjectsOfKindConcat(EmitRows(init, extracted, desc), Group(last, Lookup(extracted, last), desc), t);
      ObjectsOfKindGroup(last, Lookup(extracted, last), desc, t);
    }
  }

  /** Every row has a slot's tag as its kind, a value of that slot as its
      object, and the shared description. */
  lemma {:induction false} EmitRowsShape(types: seq<string>, extracted: map<string, seq<string>>, desc: string)
    ensures forall k :: 0 <= k < |EmitRows(types, extracted, desc)| ==>
              var e := EmitRows(types, extracted, desc)[k];
              e.kind in types && e.obj in Lookup(extracted, e.kind) && e.description == desc
    decreases |types|
  {
    if types != [] {
      var init := types[..|types| - 1];
      var last := types[|types| - 1];
      EmitRowsShape(init, extracted, desc);
      var a := EmitRows(init, extracted, desc);
      var g := Group(last, Lookup(extracted, last), desc);
      var out: seq<SomEntry> := a + g;
      assert EmitRows(types, extracted, desc) == out;
      forall k | 0 <= k < |out|
        ensures out[k].kind in types && out[k].obj in Lookup(extracted, out[k].kind) && out[k].description == desc
      {
        if k < |a| {
          assert out[k] == a[k];
          assert a[k].kind in init;
        } else {
          assert out[k] == g[k - |a|];
        }
      }
    }
  }

  /** The position in `TEMPLATE_TYPES` of the first slot of a kind. */
  function Rank(t: string): nat {
    if t == "domain" then 0
    else if t == "url" then 1
    else if t == "ip" then 2
    else if t == "sha1" then 4
    else if t == "sha256" then 5
    else if t == "email_sender" then 6
    else 7
  }

  /** Rows come out grouped in the order of their slots, for any list of
      slots in rank order. */
  lemma {:induction false} EmitRowsOrdered(types: seq<string>, extracted: map<string, seq<string>>, desc: string)
    requires forall i, j :: 0 <= i < j < |types| ==> Rank(types[i]) <= Rank(types[j])
    ensures forall i, j :: 0 <= i < j < |EmitRows(types, extracted, desc)| ==>
              Rank(EmitRows(types, extracted, desc)[i].kind) <= Rank(EmitRows(types, extracted, desc)[j].kind)
    ensures forall i :: 0 <= i < |EmitRows(types, extracted, desc)| ==>
              Rank(EmitRows(types, extracted, desc)[i].kind) <= (if types == [] then 0 else Rank(types[|types| - 1]))
    decreases |types|
  {
    if types != [] {
      var init := types[..|types| - 1];
      var last := types[|types| - 1];
      EmitRowsOrdered(init, extracted, desc);
      EmitRowsShape(init, extracted, desc);
      var a := EmitRows(init, extracted, desc);
      var g := Group(last, Lookup(extracted, last), desc);
      var out: seq<SomEntry> := a + g;
      assert EmitRows(types, extracted, desc) == out;
      forall i | 0 <= i < |a| ensures Rank(a[i].kind) <= Rank(last) {
        var m :| 0 <= m < |init| && init[m] == a[i].kind;
      }
      forall i, j | 0 <= i < j < |out| ensures Rank(out[i].kind) <= Rank(out[j].kind) {
        if j >= |a| {
          assert out[j] == g[j - |a|];
          if i >= |a| {
            assert out[i] == g[i - |a|];
          } else {
            assert out[i] == a[i];
          }
        } else {
          assert out[i] == a[i] && out[j] == a[j];
        }
      }
      forall i | 0 <= i < |out| ensures Rank(out[i].kind) <= Rank(last) {
        if i >= |a| {
          assert out[i] == g[i - |a|];
        } else {
          assert out[i] == a[i];
        }
      }
    }
  }

  // ---------------------------------------------------------------------
  // The template

  /** What each key of `extracted` holds. */
  lemma ExtractedLookups(rows: Table, urls: seq<string>)
    ensures Lookup(Extracted(rows, urls), "domain") == CleanValues(ColumnValues(rows, "domain"))
    ensures Lookup(Extracted(rows, urls), "url") == CleanValues(urls)
    ensures Lookup(Extracted(rows, urls), "ip") == CleanValues(ColumnValues(rows, "IP"))
    ensures Lookup(Extracted(rows, urls), "sha1") == CleanValues(ColumnValues(rows, "sha1"))
    ensures Lookup(Extracted(rows, urls), "sha256") == CleanValues(ColumnValues(rows, "sha256"))
    ensures Lookup(Extracted(rows, urls), "email_sender") == CleanValues(ColumnValues(rows, "email_sender"))
  {
  }

  lemma EmitRowsSnoc(types: seq<string>, t: string, ex: map<string, seq<string>>, d: string)
    ensures EmitRows(types + [t], ex, d) == EmitRows(types, ex, d) + Group(t, Lookup(ex, t), d)
  {
    assert (types + [t])[..|types|] == types;
  }

  lemma EmitRowsFour(s0: string, s1: string, s2: string, s3: string, ex: map<string, seq<string>>, d: string)
    ensures EmitRows([s0, s1, s2, s3], ex, d) ==
              Group(s0, Lookup(ex, s0), d) + Group(s1, Lookup(ex, s1), d) + Group(s2, Lookup(ex, s2), d) +
              Group(s3, Lookup(ex, s3), d)
  {
    EmitRowsSnoc([], s0, ex, d);
    assert [] + [s0] == [s0];
    EmitRowsSnoc([s0], s1, ex, d);
    assert [s0] + [s1] == [s0, s1];
    EmitRowsSnoc([s0, s1], s2, ex, d);
    assert [s0, s1] + [s2] == [s0, s1, s2];
    EmitRowsSnoc([s0, s1, s2], s3, ex, d);
    assert [s0, s1, s2] + [s3] == [s0, s1, s2, s3];
  }

  /** Seven slots emit seven groups, one after the other. */
  lemma EmitRowsSeven(s0: string, s1: string, s2: string, s3: string, s4: string, s5: string, s6: string,
                      ex: map<string, seq<string>>, d: string)
    ensures EmitRows([s0, s1, s2, s3, s4, s5, s6], ex, d) ==
              Group(s0, Lookup(ex, s0), d) + Group(s1, Lookup(ex, s1), d) + Group(s2, Lookup(ex, s2), d) +
              Group(s3, Lookup(ex, s3), d) + Group(s4, Lookup(ex, s4), d) + Group(s5, Lookup(ex, s5), d) +
              Group(s6, Lookup(ex, s6), d)
  {
    EmitRowsFour(s0, s1, s2, s3, ex, d);
    EmitRowsSnoc([s0, s1, s2, s3], s4, ex, d);
    assert [s0, s1, s2, s3] + [s4] == [s0, s1, s2, s3, s4];
    EmitRowsSnoc([s0, s1, s2, s3, s4], s5, ex, d);
    assert [s0, s1, s2, s3, s4] + [s5] == [s0, s1, s2, s3, s4, s5];
    EmitRowsSnoc([s0, s1, s2, s3, s4, s5], s6, ex, d);
    assert [s0, s1, s2, s3, s4, s5] + [s6] == [s0, s1, s2, s3, s4, s5, s6];
  }

  /** For any dictionary, the template emits its seven groups in turn. */
  lemma TemplateGroups(ex: map<string, seq<string>>, d: string)
    ensures EmitRows(TemplateTypes, ex, d) ==
              Group("domain", Lookup(ex, "domain"), d) + Group("url", Lookup(ex, "url"), d) +
              Group("ip", Lookup(ex, "ip"), d) + Group("ip", Lookup(ex, "ip"), d) +
              Group("sha1", Lookup(ex, "sha1"), d) + Group("sha256", Lookup(ex, "sha256"), d) +
              Group("email_sender", Lookup(ex, "email_sender"), d)
  {
    EmitRowsSeven("domain", "url", "ip", "ip", "sha1", "sha256", "email_sender", ex, d);
  }

  lemma ValuesOfKindSnoc(types: seq<string>, s: string, ex: map<string, seq<string>>, t: string)
    ensures ValuesOfKind(types + [s], ex, t) == ValuesOfKind(types, ex, t) + (if s == t then Lookup(ex, t) else [])
  {
    assert (types + [s])[..|types|] == types;
  }

  lemma ValuesOfKindFour(s0: string, s1: string, s2: string, s3: string, ex: map<string, seq<string>>, t: string)
    ensures var v := Lookup(ex, t);
            ValuesOfKind([s0, s1, s2, s3], ex, t) ==
              (if s0 == t then v else []) + (if s1 == t then v else []) + (if s2 == t then v else []) +
              (if s3 == t then v else [])
  {
    ValuesOfKindSnoc([], s0, ex, t);
    assert [] + [s0] == [s0];
    ValuesOfKindSnoc([s0], s1, ex, t);
    assert [s0] + [s1] == [s0, s1];
    ValuesOfKindSnoc([s0, s1], s2, ex, t);
    assert [s0, s1] + [s2] == [s0, s1, s2];
    ValuesOfKindSnoc([s0, s1, s2], s3, ex, t);
    assert [s0, s1, s2] + [s3] == [s0, s1, s2, s3];
  }

  /** The slot-by-slot decomposition behind `TemplateValues`. */
  lemma ValuesOfKindSeven(s0: string, s1: string, s2: string, s3: string, s4: string, s5: string, s6: string,
                          ex: map<string, seq<string>>, t: string)
    ensures var v := Lookup(ex, t);
            ValuesOfKind([s0, s1, s2, s3, s4, s5, s6], ex, t) ==
              (if s0 == t then v else []) + (if s1 == t then v else []) + (if s2 == t then v else []) +
              (if s3 == t then v else []) + (if s4 == t then v else []) + (if s5 == t then v else []) +
              (if s6 == t then v else [])
  {
    ValuesOfKindFour(s0, s1, s2, s3, ex, t);
    ValuesOfKindSnoc([s0, s1, s2, s3], s4, ex, t);
    assert [s0, s1, s2, s3] + [s4] == [s0, s1, s2, s3, s4];
    ValuesOfKindSnoc([s0, s1, s2, s3, s4], s5, ex, t);
    assert [s0, s1, s2, s3, s4] + [s5] == [s0, s1, s2, s3, s4, s5];
    ValuesOfKindSnoc([s0, s1, s2, s3, s4, s5], s6, ex, t);
    assert [s0, s1, s2, s3, s4, s5] + [s6] == [s0, s1, s2, s3, s4, s5, s6];
  }

  /** For any dictionary, the slots of each kind hold its list once, and the
      two `"ip"` slots hold it twice. */
  lemma TemplateValues(ex: map<string, seq<string>>, t: string)
    ensures ValuesOfKind(TemplateTypes, ex, t) ==
              if t == "ip" then Lookup(ex, t) + Lookup(ex, t)
              else if t in TemplateTypes then Lookup(ex, t)
              else []
  {
    ValuesOfKindSeven("domain", "url", "ip", "ip", "sha1", "sha256", "email_sender", ex, t);
    var v := Lookup(ex, t);
    if t == "ip" {
      assert ValuesOfKind(TemplateTypes, ex, t) == [] + [] + v + v + [] + [] + [];
    } else if t == "domain" {
      assert ValuesOfKind(TemplateTypes, ex, t) == v + [] + [] + [] + [] + [] + [];
    } else if t == "url" {
      assert ValuesOfKind(TemplateTypes, ex, t) == [] + v + [] + [] + [] + [] + [];
    } else if t == "sha1" {
      assert ValuesOfKind(TemplateTypes, ex, t) == [] + [] + [] + [] + v + [] + [];
    } else if t == "sha256" {
      assert ValuesOfKind(TemplateTypes, ex, t) == [] + [] + [] + [] + [] + v + [];
    } else if t == "email_sender" {
      assert ValuesOfKind(TemplateTypes, ex, t) == [] + [] + [] + [] + [] + [] + v;
    } else {
      assert t !in TemplateTypes;
    }
  }

  /** The output is the seven template groups, one after the other. */
  lemma FormatGrouped(rows: Table, urls: seq<string>, descPrefix: Option<string>, today: string)
    ensures var d := Description(descPrefix, today);
            FormatSpec(rows, urls, descPrefix, today) ==
              Group("domain", CleanValues(ColumnValues(rows, "domain")), d) +
              Group("url", CleanValues(urls), d) +
              Group("ip", CleanValues(ColumnValues(rows, "IP")), d) +
              Group("ip", CleanValues(ColumnValues(rows, "IP")), d) +
              Group("sha1", CleanValues(ColumnValues(rows, "sha1")), d) +
              Group("sha256", CleanValues(ColumnValues(rows, "sha256")), d) +
              Group("email_sender", CleanValues(ColumnValues(rows, "email_sender")), d)
  {
    TemplateGroups(Extracted(rows, urls), Description(descPrefix, today));
    ExtractedLookups(rows, urls);
  }

  /** The number of rows: IPs count twice, every URL counts once. */
  lemma FormatLength(rows: Table, urls: seq<string>, descPrefix: Option<string>, today: string)
    ensures |FormatSpec(rows, urls, descPrefix, today)| ==
              |ColumnValues(rows, "domain")| + |urls| + 2 * |ColumnValues(rows, "IP")| +
              |ColumnValues(rows, "sha1")| + |ColumnValues(rows, "sha256")| + |ColumnValues(rows, "email_sender")|
  {
    FormatGrouped(rows, urls, descPrefix, today);
  }

  /** A single non-empty cell is enough for the column to give a value. */
  lemma {:induction false} ColumnValuesHit(rows: Table, k: nat, col: string)
    requires k < |rows|
    ensures HasValue(rows[k], col) ==> rows[k][col] in ColumnValues(rows, col)
  {
    if k > 0 {
      ColumnValuesHit(rows[1..], k - 1, col);
    }
  }

  /** No row at all exactly when no URL was found and no CSV row carries a
      value in any of the five columns read. */
  lemma FormatEmptyIff(rows: Table, urls: seq<string>, descPrefix: Option<string>, today: string)
    ensures FormatSpec(rows, urls, descPrefix, today) == [] <==>
              urls == [] &&
              forall k :: 0 <= k < |rows| ==>
                !HasValue(rows[k], "domain") && !HasValue(rows[k], "IP") && !HasValue(rows[k], "sha1") &&
                !HasValue(rows[k], "sha256") && !HasValue(rows[k], "email_sender")
  {
    FormatLength(rows, urls, descPrefix, today);
    if forall k :: 0 <= k < |rows| ==>
         !HasValue(rows[k], "domain") && !HasValue(rows[k], "IP") && !HasValue(rows[k], "sha1") &&
         !HasValue(rows[k], "sha256") && !HasValue(rows[k], "email_sender") {
      ColumnValuesAbsent(rows, "domain");
      ColumnValuesAbsent(rows, "IP");
      ColumnValuesAbsent(rows, "sha1");
      ColumnValuesAbsent(rows, "sha256");
      ColumnValuesAbsent(rows, "email_sender");
    }
    if FormatSpec(rows, urls, descPrefix, today) == [] {
      forall k | 0 <= k < |rows|
        ensures !HasValue(rows[k], "domain") && !HasValue(rows[k], "IP") && !HasValue(rows[k], "sha1") &&
                !HasValue(rows[k], "sha256") && !HasValue(rows[k], "email_sender")
      {
        ColumnValuesHit(rows, k, "domain");
        ColumnValuesHit(rows, k, "IP");
        ColumnValuesHit(rows, k, "sha1");
        ColumnValuesHit(rows, k, "sha256");
        ColumnValuesHit(rows, k, "email_sender");
      }
    }
  }

  /** Rows of a template dictionary whose lists are all clean are clean. */
  lemma TemplateRowsClean(ex: map<string, seq<string>>, d: string)
    requires forall t :: t in TemplateTypes ==> forall v :: v in Lookup(ex, t) ==> IsClean(v)
    ensures forall k :: 0 <= k < |EmitRows(TemplateTypes, ex, d)| ==>
              var e := EmitRows(TemplateTypes, ex, d)[k];
              e.kind in TemplateTypes && e.description == d && e.obj in Lookup(ex, e.kind) && IsClean(e.obj)
  {
    EmitRowsShape(TemplateTypes, ex, d);
  }

  /** Every row has a template tag as its kind, the shared description, and
      a cleaned value taken from the list of its kind. */
  lemma FormatRowsWellFormed(rows: Table, urls: seq<string>, descPrefix: Option<string>, today: string)
    ensures forall k :: 0 <= k < |FormatSpec(rows, urls, descPrefix, today)| ==>
              var e := FormatSpec(rows, urls, descPrefix, today)[k];
              e.kind in TemplateTypes && e.description == Description(descPrefix, today) &&
              e.obj in Lookup(Extracted(rows, urls), e.kind) && IsClean(e.obj)
  {
    var ex := Extracted(rows, urls);
    ExtractedLookups(rows, urls);
    forall t | t in TemplateTypes
      ensures forall v :: v in Lookup(ex, t) ==> IsClean(v)
    {
      forall v | v in Lookup(ex, t) ensures IsClean(v) {
        var vals := Lookup(ex, t);
        var m :| 0 <= m < |vals| && vals[m] == v;
      }
    }
    TemplateRowsClean(ex, Description(descPrefix, today));
  }

  /** Rows come out in template order: all domains, then all URLs, then the
      IPs, the SHA-1 and SHA-256 hashes, and the senders last. */
  lemma FormatOrdered(rows: Table, urls: seq<string>, descPrefix: Option<string>, today: string)
    ensures forall i, j :: 0 <= i < j < |FormatSpec(rows, urls, descPrefix, today)| ==>
              Rank(FormatSpec(rows, urls, descPrefix, today)[i].kind) <= Rank(FormatSpec(rows, urls, descPrefix, today)[j].kind)
  {
    assert forall i :: 0 <= i < |TemplateTypes| ==> Rank(TemplateTypes[i]) == [0, 1, 2, 2, 4, 5, 6][i];
    EmitRowsOrdered(TemplateTypes, Extracted(rows, urls), Description(descPrefix, today));
  }

  /** The values of each kind, in order: the `"ip"` list is emitted twice,
      once per `"ip"` slot of the template, and the URLs are all kept. */
  lemma FormatObjectsByKind(rows: Table, urls: seq<string>, descPrefix: Option<string>, today: string)
    ensures var out := FormatSpec(rows, urls, descPrefix, today);
            ObjectsOfKind(out, "domain") == CleanValues(ColumnValues(rows, "domain")) &&
            ObjectsOfKind(out, "url") == CleanValues(urls) &&
            ObjectsOfKind(out, "ip") == CleanValues(ColumnValues(rows, "IP")) + CleanValues(ColumnValues(rows, "IP")) &&
            ObjectsOfKind(out, "sha1") == CleanValues(ColumnValues(rows, "sha1")) &&
            ObjectsOfKind(out, "sha256") == CleanValues(ColumnValues(rows, "sha256")) &&
            ObjectsOfKind(out, "email_sender") == CleanValues(ColumnValues(rows, "email_sender"))
  {
    var ex := Extracted(rows, urls);
    var d := Description(descPrefix, today);
    ExtractedLookups(rows, urls);
    EmitRowsObjects(TemplateTypes, ex, d, "domain");
    EmitRowsObjects(TemplateTypes, ex, d, "url");
    EmitRowsObjects(TemplateTypes, ex, d, "ip");
    EmitRowsObjects(TemplateTypes, ex, d, "sha1");
    EmitRowsObjects(TemplateTypes, ex, d, "sha256");
    EmitRowsObjects(TemplateTypes, ex, d, "email_sender");
    TemplateValues(ex, "domain");
    TemplateValues(ex, "url");
    TemplateValues(ex, "ip");
    TemplateValues(ex, "sha1");
    TemplateValues(ex, "sha256");
    TemplateValues(ex, "email_sender");
  }

  /** Without a prefix, every row is described as `"cert "` and the date. */
  lemma DefaultDescription(rows: Table, urls: seq<string>, today: string)
    ensures forall k :: 0 <= k < |FormatSpec(rows, urls, None, today)| ==>
              FormatSpec(rows, urls, None, today)[k].description == "cert " + today
  {
    FormatRowsWellFormed(rows, urls, None, today);
  }

  /** A table whose only values are domains, with no URL, gives one row
      per domain value, in table order. */
  lemma FormatOnlyDomains(rows: Table, urls: seq<string>, descPrefix: Option<string>, today: string)
    requires |urls| == 0
    requires ColumnValues(rows, "IP") == [] && ColumnValues(rows, "sha1") == []
    requires ColumnValues(rows, "sha256") == [] && ColumnValues(rows, "email_sender") == []
    ensures FormatSpec(rows, urls, descPrefix, today) ==
              Group("domain", CleanValues(ColumnValues(rows, "domain")), Description(descPrefix, today))
  {
    FormatGrouped(rows, urls, descPrefix, today);
    OnlyFirstGroup(CleanValues(ColumnValues(rows, "domain")), CleanValues(urls), CleanValues(ColumnValues(rows, "IP")),
                   CleanValues(ColumnValues(rows, "sha1")), CleanValues(ColumnValues(rows, "sha256")),
                   CleanValues(ColumnValues(rows, "email_sender")), Description(descPrefix, today));
  }

  lemma OtherColumnsAbsent(rows: Table)
    requires forall k :: 0 <= k < |rows| ==>
               !HasValue(rows[k], "IP") && !HasValue(rows[k], "sha1") &&
               !HasValue(rows[k], "sha256") && !HasValue(rows[k], "email_sender")
    ensures ColumnValues(rows, "IP") == [] && ColumnValues(rows, "sha1") == []
    ensures ColumnValues(rows, "sha256") == [] && ColumnValues(rows, "email_sender") == []
  {
    ColumnValuesAbsent(rows, "IP");
    ColumnValuesAbsent(rows, "sha1");
    ColumnValuesAbsent(rows, "sha256");
    ColumnValuesAbsent(rows, "email_sender");
  }

  /** The seven template groups when only the domain list has values. */
  lemma OnlyFirstGroup(dom: seq<string>, url: seq<string>, ip: seq<string>, sha1: seq<string>, sha256: seq<string>,
                       sender: seq<string>, d: string)
    requires |url| == 0 && |ip| == 0 && |sha1| == 0 && |sha256| == 0 && |sender| == 0
    ensures Group("domain", dom, d) + Group("url", url, d) + Group("ip", ip, d) + Group("ip", ip, d) +
            Group("sha1", sha1, d) + Group("sha256", sha256, d) + Group("email_sender", sender, d) ==
            Group("domain", dom, d)
  {
    var g := Group("domain", dom, d);
    GroupEmpty("url", url, d);
    GroupEmpty("ip", ip, d);
    GroupEmpty("sha1", sha1, d);
    GroupEmpty("sha256", sha256, d);
    GroupEmpty("email_sender", sender, d);
    assert g + [] + [] + [] + [] + [] + [] == g;
  }

  lemma GroupEmpty(kind: string, vals: seq<string>, d: string)
    requires |vals| == 0
    ensures Group(kind, vals, d) == []
  {
  }

  const TwoDomainRows: Table := [map["domain" := "a.com"], map["domain" := "[b.com]"]]

  lemma TwoDomainColumn()
    ensures ColumnValues(TwoDomainRows, "domain") == ["a.com", "[b.com]"]
  {
    assert TwoDomainRows[1..][1..] == [];
  }

  lemma TwoDomainOthersAbsent()
    ensures forall k :: 0 <= k < |TwoDomainRows| ==>
              !HasValue(TwoDomainRows[k], "IP") && !HasValue(TwoDomainRows[k], "sha1") &&
              !HasValue(TwoDomainRows[k], "sha256") && !HasValue(TwoDomainRows[k], "email_sender")
  {
  }

  lemma CleanValuesPair(x: string, y: string)
    ensures CleanValues([x, y]) == [CleanValue(x), CleanValue(y)]
  {
  }

  lemma TwoDomainCleaned()
    ensures CleanValues(["a.com", "[b.com]"]) == ["a.com", "b.com"]
  {
    CleanValuesPair("a.com", "[b.com]");
    CleanValuePlainDomain();
    CleanValueBracketedDomain();
  }

  /** A table with two domain cells, one of them bracketed, and no URLs
      gives exactly two domain rows, in table order, with the brackets
      gone and one shared description. */
  lemma FormatTwoDomains(urls: seq<string>, descPrefix: Option<string>, today: string)
    requires |urls| == 0
    ensures var d := Description(descPrefix, today);
            FormatSpec(TwoDomainRows, urls, descPrefix, today) == [SomEntry("domain", "a.com", d), SomEntry("domain", "b.com", d)]
  {
    var d := Description(descPrefix, today);
    TwoDomainOthersAbsent();
    OtherColumnsAbsent(TwoDomainRows);
    FormatOnlyDomains(TwoDomainRows, urls, descPrefix, today);
    TwoDomainColumn();
    TwoDomainCleaned();
    assert Group("domain", ["a.com", "b.com"], d) == [SomEntry("domain", "a.com", d), SomEntry("domain", "b.com", d)];
  }

  const BracketsOnlyRows: Table := [map["domain" := "[]"]]

  lemma BracketsOnlyColumn()
    ensures ColumnValues(BracketsOnlyRows, "domain") == ["[]"]
  {
    assert BracketsOnlyRows[1..] == [];
  }

  lemma BracketsOnlyOthersAbsent()
    ensures forall k :: 0 <= k < |BracketsOnlyRows| ==>
              !HasValue(BracketsOnlyRows[k], "IP") && !HasValue(BracketsOnlyRows[k], "sha1") &&
              !HasValue(BracketsOnlyRows[k], "sha256") && !HasValue(BracketsOnlyRows[k], "email_sender")
  {
  }

  lemma CleanValuesSingle(x: string)
    ensures CleanValues([x]) == [CleanValue(x)]
  {
  }

  /** A non-empty cell that cleans to the empty string still gives a row,
      whose object is empty. */
  lemma FormatKeepsEmptiedCell(urls: seq<string>, descPrefix: Option<string>, today: string)
    requires |urls| == 0
    ensures FormatSpec(BracketsOnlyRows, urls, descPrefix, today) == [SomEntry("domain", "", Description(descPrefix, today))]
  {
    var d := Description(descPrefix, today);
    BracketsOnlyOthersAbsent();
    OtherColumnsAbsent(BracketsOnlyRows);
    FormatOnlyDomains(BracketsOnlyRows, urls, descPrefix, today);
    BracketsOnlyColumn();
    CleanValueBracketsOnly();
    CleanValuesSingle("[]");
    assert Group("domain", [""], d) == [SomEntry("domain", "", d)];
  }
}
