/** The recursive redaction pass `sanitize` (src/pan_collector/main.py
    lines 11-29), as a pure function from a mapping to a new mapping. */
module Sanitizer {
  import opened JsonTree
  import opened SensitiveKeys

  /** One mapping level: every key is kept, and its value is replaced by
      the result of the per-key step. */
  function SanitizeObject(branch: map<string, Json>): (r: map<string, Json>)
    decreases Obj(branch), 0
    ensures r.Keys == branch.Keys
    ensures forall k | k in branch && IsSensitive(k) :: r[k] == Blank
  {
    map k | k in branch :: SanitizeEntry(k, branch[k])
  }

  /** The loop body for one key: a sensitive key's value is blanked without
      looking inside it; otherwise a mapping is walked, a sequence is walked
      one level deep into its mapping elements, and a leaf is kept. */
  function SanitizeEntry(k: string, v: Json): Json
    decreases v, 1
  {
    if IsSensitive(k) then Blank
    else match v
      case Obj(f) => Obj(SanitizeObject(f))
      case Arr(items) => Arr(seq(|items|, i requires 0 <= i < |items| => SanitizeItem(items[i])))
      case _ => v
  }

  /** The inner loop body for one sequence element: only mappings are
      walked; nested sequences and leaves are left as they are. */
  function SanitizeItem(item: Json): Json
    decreases item, 1
  {
    if item.Obj? then Obj(SanitizeObject(item.fields)) else item
  }

  // ---------------------------------------------------------------------
  // What a fully redacted tree looks like.

  /** No sensitive key at this level holds anything but the blank string,
      and the same holds at every level the walk reaches below. */
  ghost predicate Redacted(branch: map<string, Json>)
    decreases Obj(branch), 0
  {
    forall k | k in branch ::
      if IsSensitive(k) then branch[k] == Blank else RedactedBelow(branch[k])
  }

  /** The levels the walk reaches below a non-sensitive key: a mapping
      value, and the mapping elements of a sequence value. */
  ghost predicate RedactedBelow(v: Json)
    decreases v, 1
  {
    match v
    case Obj(f) => Redacted(f)
    case Arr(items) => forall i | 0 <= i < |items| :: RedactedItem(items[i])
    case _ => true
  }

  ghost predicate RedactedItem(item: Json)
    decreases item, 1
  {
    item.Obj? ==> Redacted(item.fields)
  }

  // ---------------------------------------------------------------------
  // What sanitizing may change.

  /** `b` is `a` with zero or more values of sensitive keys replaced by the
      blank string: the same keys at every level, the same sequence
      lengths, the same leaves elsewhere. */
  ghost predicate BlankedFrom(a: Json, b: Json)
    decreases a, 1
  {
    || a == b
    || (a.Obj? && b.Obj? && FieldsBlankedFrom(a.fields, b.fields))
    || (a.Arr? && b.Arr? && |a.items| == |b.items|
        && forall i | 0 <= i < |a.items| :: ItemBlankedFrom(a.items[i], b.items[i]))
  }

  /** A sequence element changes only when it is a mapping, and then only
      by blanking; a nested sequence or a leaf stays exactly as it was. */
  ghost predicate ItemBlankedFrom(a: Json, b: Json)
    decreases a, 1
  {
    a == b || (a.Obj? && b.Obj? && FieldsBlankedFrom(a.fields, b.fields))
  }

  ghost predicate FieldsBlankedFrom(f: map<string, Json>, g: map<string, Json>)
    decreases Obj(f), 0
  {
    && f.Keys == g.Keys
    && forall k | k in f :: (IsSensitive(k) && g[k] == Blank) || BlankedFrom(f[k], g[k])
  }

  // ---------------------------------------------------------------------
  // Redaction is complete at every level the walk reaches.

  lemma {:induction false} SanitizeIsRedacted(branch: map<string, Json>)
    decreases Obj(branch), 0
    ensures Redacted(SanitizeObject(branch))
  {
    var r := SanitizeObject(branch);
    forall k | k in r
      ensures if IsSensitive(k) then r[k] == Blank else RedactedBelow(r[k])
    {
      EntryIsRedacted(k, branch[k]);
    }
  }

  lemma {:induction false} EntryIsRedacted(k: string, v: Json)
    decreases v, 1
    ensures !IsSensitive(k) ==> RedactedBelow(SanitizeEntry(k, v))
  {
    if !IsSensitive(k) {
      match v
      case Obj(f) =>
        SanitizeIsRedacted(f);
      case Arr(items) =>
        var out := SanitizeEntry(k, v).items;
        forall i | 0 <= i < |items|
          ensures RedactedItem(out[i])
        {
          ItemIsRedacted(items[i]);
        }
      case _ =>
    }
  }

  lemma {:induction false} ItemIsRedacted(item: Json)
    decreases item, 1
    ensures RedactedItem(SanitizeItem(item))
  {
    if item.Obj? {
      SanitizeIsRedacted(item.fields);
    }
  }

  // ---------------------------------------------------------------------
  // Sanitizing only blanks values of sensitive keys.

  lemma {:induction false} SanitizeOnlyBlanks(branch: map<string, Json>)
    decreases Obj(branch), 0
    ensures FieldsBlankedFrom(branch, SanitizeObject(branch))
  {
    var r := SanitizeObject(branch);
    forall k | k in branch
      ensures (IsSensitive(k) && r[k] == Blank) || BlankedFrom(branch[k], r[k])
    {
      EntryOnlyBlanks(k, branch[k]);
    }
  }

  lemma {:induction false} EntryOnlyBlanks(k: string, v: Json)
    decreases v, 1
    ensures var r := SanitizeEntry(k, v); (IsSensitive(k) && r == Blank) || BlankedFrom(v, r)
  {
    if !IsSensitive(k) {
      match v
      case Obj(f) =>
        SanitizeOnlyBlanks(f);
      case Arr(items) =>
        var out := SanitizeEntry(k, v).items;
        forall i | 0 <= i < |items|
          ensures ItemBlankedFrom(items[i], out[i])
        {
          ItemOnlyBlanks(items[i]);
        }
      case _ =>
    }
  }

  lemma {:induction false} ItemOnlyBlanks(item: Json)
    decreases item, 1
    ensures ItemBlankedFrom(item, SanitizeItem(item))
  {
    if item.Obj? {
      SanitizeOnlyBlanks(item.fields);
    }
  }

  // ---------------------------------------------------------------------
  // The two descriptions together determine the result.

  /** The sanitized mapping is the only redacted mapping that differs from
      the input just by blanking values of sensitive keys. */
  lemma {:induction false} OnlyOneSanitized(branch: map<string, Json>, g: map<string, Json>)
    decreases Obj(branch), 0
    requires Redacted(g) && FieldsBlankedFrom(branch, g)
    ensures g == SanitizeObject(branch)
  {
    var r := SanitizeObject(branch);
    forall k | k in branch
      ensures g[k] == r[k]
    {
      EntryUnique(k, branch[k], g[k]);
    }
  }

  lemma {:induction false} EntryUnique(k: string, v: Json, w: Json)
    decreases v, 1
    requires (IsSensitive(k) && w == Blank) || BlankedFrom(v, w)
    requires if IsSensitive(k) then w == Blank else RedactedBelow(w)
    ensures w == SanitizeEntry(k, v)
  {
    if !IsSensitive(k) {
      if v == w {
        EntryFixpoint(k, v);
      } else if v.Obj? {
        OnlyOneSanitized(v.fields, w.fields);
      } else {
        var out := SanitizeEntry(k, v).items;
        forall i | 0 <= i < |v.items|
          ensures w.items[i] == out[i]
        {
          ItemUnique(v.items[i], w.items[i]);
        }
      }
    }
  }

  lemma {:induction false} ItemUnique(a: Json, b: Json)
    decreases a, 1
    requires ItemBlankedFrom(a, b) && RedactedItem(b)
    ensures b == SanitizeItem(a)
  {
    if a == b {
      ItemFixpoint(a);
    } else {
      OnlyOneSanitized(a.fields, b.fields);
    }
  }

  // ---------------------------------------------------------------------
  // Redacted trees are exactly the ones sanitizing leaves alone.

  lemma {:induction false} RedactedIsFixpoint(branch: map<string, Json>)
    decreases Obj(branch), 0
    requires Redacted(branch)
    ensures SanitizeObject(branch) == branch
  {
    var r := SanitizeObject(branch);
    forall k | k in branch
      ensures r[k] == branch[k]
    {
      EntryFixpoint(k, branch[k]);
    }
  }

  lemma {:induction false} EntryFixpoint(k: string, v: Json)
    decreases v, 1
    requires if IsSensitive(k) then v == Blank else RedactedBelow(v)
    ensures SanitizeEntry(k, v) == v
  {
    if !IsSensitive(k) {
      match v
      case Obj(f) =>
        RedactedIsFixpoint(f);
      case Arr(items) =>
        var out := SanitizeEntry(k, v).items;
        forall i | 0 <= i < |items|
          ensures out[i] == items[i]
        {
          ItemFixpoint(items[i]);
        }
      case _ =>
    }
  }

  lemma {:induction false} ItemFixpoint(item: Json)
    decreases item, 1
    requires RedactedItem(item)
    ensures SanitizeItem(item) == item
  {
    if item.Obj? {
      RedactedIsFixpoint(item.fields);
    }
  }

  lemma FixpointIffRedacted(branch: map<string, Json>)
    ensures SanitizeObject(branch) == branch <==> Redacted(branch)
  {
    if Redacted(branch) {
      RedactedIsFixpoint(branch);
    }
    if SanitizeObject(branch) == branch {
      SanitizeIsRedacted(branch);
    }
  }

  /** Sanitizing twice gives the same tree as sanitizing once. */
  lemma SanitizeIdempotent(branch: map<string, Json>)
    ensures SanitizeObject(SanitizeObject(branch)) == SanitizeObject(branch)
  {
    SanitizeIsRedacted(branch);
    RedactedIsFixpoint(SanitizeObject(branch));
  }

  // ---------------------------------------------------------------------
  // What happens under a key that is not sensitive.

  /** A leaf under a key that is not sensitive is kept as it is. */
  lemma LeafKept(branch: map<string, Json>, k: string)
    requires k in branch && !IsSensitive(k) && !branch[k].Obj? && !branch[k].Arr?
    ensures SanitizeObject(branch)[k] == branch[k]
  {
  }

  /** A mapping under a key that is not sensitive keeps its keys and is
      redacted at every level below. */
  lemma ObjectWalked(branch: map<string, Json>, k: string)
    requires k in branch && !IsSensitive(k) && branch[k].Obj?
    ensures SanitizeObject(branch)[k].Obj?
    ensures SanitizeObject(branch)[k].fields.Keys == branch[k].fields.Keys
    ensures Redacted(SanitizeObject(branch)[k].fields)
  {
    EntryIsRedacted(k, branch[k]);
  }

  /** A sequence under a key that is not sensitive keeps its length; its
      non-mapping elements, nested sequences included, stay exactly as
      they were, and each mapping element keeps its keys and is redacted
      below. */
  lemma ListWalkedOneLevel(branch: map<string, Json>, k: string, i: int)
    requires k in branch && !IsSensitive(k) && branch[k].Arr?
    requires 0 <= i < |branch[k].items|
    ensures SanitizeObject(branch)[k].Arr?
    ensures |SanitizeObject(branch)[k].items| == |branch[k].items|
    ensures !branch[k].items[i].Obj? ==> SanitizeObject(branch)[k].items[i] == branch[k].items[i]
    ensures branch[k].items[i].Obj? ==>
      && SanitizeObject(branch)[k].items[i].Obj?
      && SanitizeObject(branch)[k].items[i].fields.Keys == branch[k].items[i].fields.Keys
      && Redacted(SanitizeObject(branch)[k].items[i].fields)
  {
    ItemIsRedacted(branch[k].items[i]);
  }

  /** A secret inside a mapping that sits in a sequence nested in another
      sequence is out of the walk's reach and survives sanitizing. */
  lemma DeepListSecretSurvives()
    ensures var branch := map["entry" := Arr([Arr([Obj(map["password" := Str("x")])])])];
      SanitizeObject(branch) == branch
  {
    var branch := map["entry" := Arr([Arr([Obj(map["password" := Str("x")])])])];
    NoTokenLettersNotSensitive("entry");
    var r := SanitizeObject(branch);
    assert r.Keys == branch.Keys;
    assert r["entry"] == branch["entry"];
  }

  lemma ExampleKeys()
    ensures IsSensitive("bind-password") && IsSensitive("auth-password")
    ensures !IsSensitive("hostname") && !IsSensitive("nested") && !IsSensitive("note")
  {
    LowerKeepsLowercase("bind-password");
    LowerKeepsLowercase("auth-password");
    NoTokenLettersNotSensitive("hostname");
    NoTokenLettersNotSensitive("nested");
    NoTokenLettersNotSensitive("note");
  }

  /** The worked example of the redaction rule. */
  lemma SanitizeExample()
    ensures
      var input := map[
        "bind-password" := Str("hunter2"),
        "hostname" := Str("fw1"),
        "nested" := Obj(map["auth-password" := Str("x"), "note" := Str("ok")])];
      var expected := map[
        "bind-password" := Str(""),
        "hostname" := Str("fw1"),
        "nested" := Obj(map["auth-password" := Str(""), "note" := Str("ok")])];
      SanitizeObject(input) == expected
  {
    var inner := map["auth-password" := Str("x"), "note" := Str("ok")];
    var input := map[
      "bind-password" := Str("hunter2"),
      "hostname" := Str("fw1"),
      "nested" := Obj(inner)];
    ExampleKeys();
    var r := SanitizeObject(inner);
    assert r == map["auth-password" := Str(""), "note" := Str("ok")];
    var out := SanitizeObject(input);
    assert out["nested"] == SanitizeEntry("nested", Obj(inner)) == Obj(r);
  }
}

