/**
 The `non_breaking_allowlist` of the layout sentinel: an append-only log of rows, folded by
 `_load_allowlist` into one entry per path.
 */
module Allowlist {
  import opened Wrappers
  import opened Lines

  /** A loaded YAML value; mapping keys are strings. */
  datatype Yaml =
    | Null
    | Number(n: int)
    | Str(s: string)
    | List(items: seq<Yaml>)
    | Mapping(fields: map<string, Yaml>)

  /** What the log says about one path. `signature` is None while no row has scoped the path. */
  datatype Entry = Entry(justification: Option<string>, signature: Option<string>)

  datatype Refusal =
    | MalformedEntry
    | UnknownKeys
    | NeedsJustification
    | SignatureNotText
    | UnhashablePath            // a list or a mapping cannot be a dictionary key
    | Unscoped(paths: set<Yaml>)

  type Table = map<Yaml, Entry>

  function Field(fields: map<string, Yaml>, key: string): Yaml {
    if key in fields then fields[key] else Null
  }

  /** Why a row is refused on its own, in the order of the loader's tests; None for a legal row. */
  function RowRefusal(raw: Yaml): Option<Refusal> {
    match raw
    case Str(_) => None
    case Mapping(m) =>
      if "path" !in m then Some(MalformedEntry)
      else if !(m.Keys <= {"path", "justification", "layout_signature"}) then Some(UnknownKeys)
      else if !Field(m, "justification").Str? || Blank(Field(m, "justification").s) then Some(NeedsJustification)
      else if !Field(m, "layout_signature").Null? && !Field(m, "layout_signature").Str? then Some(SignatureNotText)
      else if m["path"].List? || m["path"].Mapping? then Some(UnhashablePath)
      else None
    case _ => Some(MalformedEntry)
  }

  predicate Legal(raw: Yaml) {
    RowRefusal(raw) == None
  }

  /** Something is written in the text besides white space. */
  predicate Written(text: string) {
    exists i | 0 <= i < |text| :: !IsSpace(text[i])
  }

  /** Which rows the loader takes: a bare string, or a mapping of the three known keys with a path it can index by and a written justification. */
  lemma LegalExactly(raw: Yaml)
    ensures RowRefusal(raw) == None <==>
              raw.Str?
              || (&& raw.Mapping? && "path" in raw.fields && "justification" in raw.fields
                  && (forall key | key in raw.fields :: key in ["path", "justification", "layout_signature"])
                  && raw.fields["justification"].Str? && Written(raw.fields["justification"].s)
                  && ("layout_signature" in raw.fields ==>
                        raw.fields["layout_signature"].Null? || raw.fields["layout_signature"].Str?)
                  && !raw.fields["path"].List? && !raw.fields["path"].Mapping?)
  {
    hide IsSpace;
  }

  /** Which refusal a bad row gets: a missing path comes before a foreign key, that before the justification, that before the signature. */
  lemma RefusalExactly(raw: Yaml)
    ensures RowRefusal(raw) == Some(MalformedEntry) <==> !raw.Str? && (raw.Mapping? ==> "path" !in raw.fields)
    ensures raw.Mapping? && "path" in raw.fields ==>
              var m := raw.fields;
              var foreign := exists key :: key in m && key !in ["path", "justification", "layout_signature"];
              var unsaid := !("justification" in m && m["justification"].Str? && Written(m["justification"].s));
              var unsigned := "layout_signature" in m && !m["layout_signature"].Null? && !m["layout_signature"].Str?;
              && (RowRefusal(raw) == Some(UnknownKeys) <==> foreign)
              && (RowRefusal(raw) == Some(NeedsJustification) <==> !foreign && unsaid)
              && (RowRefusal(raw) == Some(SignatureNotText) <==> !foreign && !unsaid && unsigned)
              && (RowRefusal(raw) == Some(UnhashablePath) <==>
                    !foreign && !unsaid && !unsigned && (m["path"].List? || m["path"].Mapping?))
  {
    hide IsSpace;
  }

  // ----- what one legal row says, independently of the fold

  /** The path a legal row names. */
  function Named(raw: Yaml): Yaml
    requires Legal(raw)
  {
    if raw.Str? then raw else raw.fields["path"]
  }

  /** The signature a legal row carries itself. */
  function OwnSignature(raw: Yaml): Option<string>
    requires Legal(raw)
  {
    if raw.Mapping? && Field(raw.fields, "layout_signature").Str?
    then Some(Field(raw.fields, "layout_signature").s) else None
  }

  /** Does this legal row set or clear the signature of `p`? A mapping row without a signature does neither. */
  predicate Sets(raw: Yaml, p: Yaml)
    requires Legal(raw)
  {
    Named(raw) == p && (raw.Str? || OwnSignature(raw).Some?)
  }

  ghost predicate AllLegal(rows: seq<Yaml>) {
    forall r | r in rows :: Legal(r)
  }

  ghost predicate Names(rows: seq<Yaml>, p: Yaml)
    requires AllLegal(rows)
  {
    exists k | 0 <= k < |rows| :: Named(rows[k]) == p
  }

  /** Row `k` is the last one to set or clear `p`. */
  ghost predicate LastSetter(rows: seq<Yaml>, p: Yaml, k: nat)
    requires AllLegal(rows)
  {
    && k < |rows|
    && Sets(rows[k], p)
    && forall j | k < j < |rows| :: !Sets(rows[j], p)
  }

  /** The path's signature by the "last setter" reading: it is set by row `k` and nothing after touches it. */
  ghost predicate ResolvesTo(rows: seq<Yaml>, p: Yaml, sig: string)
    requires AllLegal(rows)
  {
    exists k: nat :: LastSetter(rows, p, k) && OwnSignature(rows[k]) == Some(sig)
  }

  ghost predicate Resolves(rows: seq<Yaml>, p: Yaml)
    requires AllLegal(rows)
  {
    exists k: nat :: LastSetter(rows, p, k) && OwnSignature(rows[k]).Some?
  }

  // ----- the loader

  /** One row applied to the table. */
  function Step(out: Table, raw: Yaml): Table
    requires Legal(raw)
  {
    if raw.Str? then out[raw := Entry(None, None)]
    else
      var p := raw.fields["path"];
      var own := OwnSignature(raw);
      var sig := if own == None && p in out && out[p].signature.Some? then out[p].signature else own;
      out[p := Entry(Some(raw.fields["justification"].s), sig)]
  }

  /** The table after the rows, read left to right. */
  function Fold(rows: seq<Yaml>): Table
    requires AllLegal(rows)
  {
    if rows == [] then map[] else Step(Fold(rows[..|rows| - 1]), rows[|rows| - 1])
  }

  function FirstRefusal(rows: seq<Yaml>): Option<Refusal> {
    if rows == [] then None
    else if RowRefusal(rows[0]).Some? then RowRefusal(rows[0])
    else FirstRefusal(rows[1..])
  }

  lemma {:induction false} FirstRefusalNone(rows: seq<Yaml>)
    ensures FirstRefusal(rows) == None <==> AllLegal(rows)
  {
    if rows != [] {
      FirstRefusalNone(rows[1..]);
      assert rows[0] in rows && forall r :: r in rows <==> r == rows[0] || r in rows[1..];
    }
  }

  lemma {:induction false} FirstRefusalAt(rows: seq<Yaml>, i: nat)
    requires i < |rows| && AllLegal(rows[..i]) && !Legal(rows[i])
    ensures FirstRefusal(rows) == RowRefusal(rows[i])
    decreases i
  {
    if i > 0 {
      assert rows[0] == rows[..i][0] && rows[..i][0] in rows[..i];
      assert rows[1..][..i - 1] == rows[..i][1..];
      FirstRefusalAt(rows[1..], i - 1);
    }
  }

  function UnscopedPaths(out: Table): set<Yaml> {
    set p | p in out && out[p].signature == None
  }

  /** The whole verdict on a row log. */
  function Load(rows: seq<Yaml>): Result<Table, Refusal> {
    if FirstRefusal(rows).Some? then Err(FirstRefusal(rows).value)
    else
      FirstRefusalNone(rows);
      var out := Fold(rows);
      if UnscopedPaths(out) == {} then Ok(out) else Err(Unscoped(UnscopedPaths(out)))
  }

  /** The loader as written: a dictionary updated row by row, each bad row refused where it stands. */
  method LoadAllowlist(rows: seq<Yaml>) returns (r: Result<Table, Refusal>)
    ensures r == Load(rows)
  {
    var out: Table := map[];
    for i := 0 to |rows|
      invariant AllLegal(rows[..i])
      invariant out == Fold(rows[..i])
    {
      var raw := rows[i];
      var refusal := RowRefusal(raw);
      if refusal.Some? {
        FirstRefusalAt(rows, i);
        return Err(refusal.value);
      }
      assert rows[..i + 1] == rows[..i] + [raw];
      assert rows[..i + 1][..i] == rows[..i];
      if raw.Str? {
        out := out[raw := Entry(None, None)];
      } else {
        var path := raw.fields["path"];
        var sig := OwnSignature(raw);
        if sig == None && path in out && out[path].signature.Some? {
          sig := out[path].signature;
        }
        out := out[path := Entry(Some(raw.fields["justification"].s), sig)];
      }
    }
    assert rows[..|rows|] == rows;
    FirstRefusalNone(rows);
    var unscoped := set p | p in out && out[p].signature == None;
    return if unscoped == {} then Ok(out) else Err(Unscoped(unscoped));
  }

  // ----- the fold is the "last setter" reading

  lemma {:induction false} FoldIsLastSetter(rows: seq<Yaml>, p: Yaml)
    requires AllLegal(rows)
    ensures p in Fold(rows) <==> Names(rows, p)
    ensures forall sig :: (p in Fold(rows) && Fold(rows)[p].signature == Some(sig)) <==> ResolvesTo(rows, p, sig)
  {
    if rows != [] {
      var n := |rows| - 1;
      var before, raw := rows[..n], rows[n];
      assert rows == before + [raw];
      FoldIsLastSetter(before, p);
      if Sets(raw, p) {
        forall k: nat | LastSetter(rows, p, k) ensures k == n {}
        assert LastSetter(rows, p, n);
      } else {
        forall k: nat ensures LastSetter(rows, p, k) <==> LastSetter(before, p, k) {
          if LastSetter(before, p, k) {
            forall j | k < j < |rows| ensures !Sets(rows[j], p) {
              if j < n { assert rows[j] == before[j]; }
            }
          }
          if LastSetter(rows, p, k) {
            assert k != n;
            forall j | k < j < |before| ensures !Sets(before[j], p) { assert rows[j] == before[j]; }
          }
        }
        forall sig ensures ResolvesTo(rows, p, sig) <==> ResolvesTo(before, p, sig) {
          if k: nat :| LastSetter(rows, p, k) && OwnSignature(rows[k]) == Some(sig) {
            assert before[k] == rows[k] && LastSetter(before, p, k);
          }
          if k: nat :| LastSetter(before, p, k) && OwnSignature(before[k]) == Some(sig) {
            assert before[k] == rows[k] && LastSetter(rows, p, k);
          }
        }
      }
      NamesLast(before, raw, p);
    }
  }

  lemma NamesLast(before: seq<Yaml>, raw: Yaml, p: Yaml)
    requires AllLegal(before) && Legal(raw)
    ensures AllLegal(before + [raw])
    ensures Names(before + [raw], p) <==> Names(before, p) || Named(raw) == p
  {
    var rows := before + [raw];
    forall r | r in rows ensures Legal(r) {}
    if k :| 0 <= k < |before| && Named(before[k]) == p { assert rows[k] == before[k]; }
    if k :| 0 <= k < |rows| && Named(rows[k]) == p {
      if k < |before| { assert rows[k] == before[k]; }
    }
    assert rows[|before|] == raw;
  }

  /** The paths a refusal lists are exactly the named paths that do not resolve. */
  lemma UnscopedAreUnresolved(rows: seq<Yaml>)
    requires AllLegal(rows)
    ensures forall p :: p in UnscopedPaths(Fold(rows)) <==> Names(rows, p) && !Resolves(rows, p)
  {
    var out := Fold(rows);
    forall p ensures p in UnscopedPaths(out) <==> Names(rows, p) && !Resolves(rows, p) {
      FoldIsLastSetter(rows, p);
      if p in out && out[p].signature.Some? {
        assert ResolvesTo(rows, p, out[p].signature.value);
      }
      if k: nat :| LastSetter(rows, p, k) && OwnSignature(rows[k]).Some? {
        assert ResolvesTo(rows, p, OwnSignature(rows[k]).value);
      }
    }
  }

  /**
   The loader accepts exactly the logs whose rows are all legal and whose named paths all
   resolve, and then its table holds for each path the signature of the path's last setter.
   */
  lemma LoadCorrect(rows: seq<Yaml>)
    ensures Load(rows).Ok? <==> AllLegal(rows) && forall p | Names(rows, p) :: Resolves(rows, p)
    ensures Load(rows).Ok? ==> forall p :: p in Load(rows).value <==> Names(rows, p)
    ensures Load(rows).Ok? ==>
              forall p, sig :: (p in Load(rows).value && Load(rows).value[p].signature == Some(sig))
                               <==> ResolvesTo(rows, p, sig)
    ensures AllLegal(rows) && Load(rows).Err? ==>
              && Load(rows).error.Unscoped?
              && forall p :: p in Load(rows).error.paths <==> Names(rows, p) && !Resolves(rows, p)
  {
    FirstRefusalNone(rows);
    if AllLegal(rows) {
      UnscopedAreUnresolved(rows);
      forall p { FoldIsLastSetter(rows, p); }
      var bad := UnscopedPaths(Fold(rows));
      if bad != {} {
        var p :| p in bad;
        assert Names(rows, p) && !Resolves(rows, p);
      } else {
        forall p | Names(rows, p) ensures Resolves(rows, p) { assert p !in bad; }
      }
    }
  }

  // ----- appending one signature row, which is what `--stamp` does

  function StampRow(path: string, signature: string, why: string): Yaml {
    Mapping(map["path" := Str(path), "layout_signature" := Str(signature), "justification" := Str(why)])
  }

  lemma StampRowLegal(path: string, signature: string, why: string)
    requires !Blank(why)
    ensures var raw := StampRow(path, signature, why);
            Legal(raw) && Named(raw) == Str(path) && OwnSignature(raw) == Some(signature)
  {
  }

  lemma AppendRow(rows: seq<Yaml>, raw: Yaml)
    requires AllLegal(rows) && Legal(raw)
    ensures AllLegal(rows + [raw])
    ensures Fold(rows + [raw]) == Step(Fold(rows), raw)
    ensures FirstRefusal(rows + [raw]) == None
  {
    forall r | r in rows + [raw] ensures Legal(r) {}
    FirstRefusalNone(rows + [raw]);
    assert (rows + [raw])[..|rows|] == rows;
  }

  lemma LoadedIsScoped(rows: seq<Yaml>)
    requires Load(rows).Ok?
    ensures AllLegal(rows) && Load(rows).value == Fold(rows)
    ensures forall p | p in Fold(rows) :: Fold(rows)[p].signature.Some?
  {
    FirstRefusalNone(rows);
    var table := Fold(rows);
    forall p | p in table ensures table[p].signature.Some? { assert p !in UnscopedPaths(table); }
  }

  /** On a log that loads, the stamp re-points its own path and leaves every other entry alone. */
  lemma StampChangesOnePath(rows: seq<Yaml>, path: string, signature: string, why: string)
    requires Load(rows).Ok? && !Blank(why)
    ensures Load(rows + [StampRow(path, signature, why)])
         == Ok(Load(rows).value[Str(path) := Entry(Some(why), Some(signature))])
  {
    var raw := StampRow(path, signature, why);
    StampRowLegal(path, signature, why);
    LoadedIsScoped(rows);
    AppendRow(rows, raw);
    assert UnscopedPaths(Fold(rows + [raw])) == {};
  }

  /** A log of legal rows is loadable after one stamp exactly when no other path was left unresolved. */
  lemma StampRepairs(rows: seq<Yaml>, path: string, signature: string, why: string)
    requires AllLegal(rows) && !Blank(why)
    ensures Load(rows + [StampRow(path, signature, why)]).Ok?
       <==> forall p | Names(rows, p) && !Resolves(rows, p) :: p == Str(path)
  {
    var raw := StampRow(path, signature, why);
    StampRowLegal(path, signature, why);
    AppendRow(rows, raw);
    var bad := UnscopedPaths(Fold(rows));
    var left := UnscopedPaths(Fold(rows + [raw]));
    assert left == bad - {Str(path)};
    UnscopedAreUnresolved(rows);
    if left == {} {
      forall p | Names(rows, p) && !Resolves(rows, p) ensures p == Str(path) {
        assert p in bad && p !in left;
      }
    } else {
      var p :| p in left;
      assert Names(rows, p) && !Resolves(rows, p) && p != Str(path);
    }
  }

  /** A mapping row without a signature keeps the one the path already has. */
  lemma MappingRowInherits(rows: seq<Yaml>, path: string, why: string)
    requires Load(rows).Ok? && Str(path) in Load(rows).value && !Blank(why)
    ensures var omitting := Mapping(map["path" := Str(path), "justification" := Str(why)]);
            var table := Load(rows).value;
            Load(rows + [omitting]) == Ok(table[Str(path) := Entry(Some(why), table[Str(path)].signature)])
  {
    LoadedIsScoped(rows);
    var omitting := Mapping(map["path" := Str(path), "justification" := Str(why)]);
    AppendRow(rows, omitting);
    assert UnscopedPaths(Fold(rows + [omitting])) == {};
  }

  /** A bare-string row clears it instead, and the whole log is refused. */
  lemma BareStringClears(rows: seq<Yaml>, path: string)
    requires Load(rows).Ok?
    ensures Load(rows + [Str(path)]) == Err(Unscoped({Str(path)}))
  {
    LoadedIsScoped(rows);
    AppendRow(rows, Str(path));
    assert UnscopedPaths(Fold(rows + [Str(path)])) == {Str(path)};
  }
}
