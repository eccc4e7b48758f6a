/** The cache's key material: a text that spells out everything an answer may depend on. */
module CacheKey {
  import opened CompileTime
  import opened Decimals
  import opened SortedTexts

  // ----- fields -----

  datatype Field = Field(key: string, value: string)

  function Write(f: Field): string { f.key + "=" + Decimal(|f.value|) + ":" + f.value + "\n" }

  function WriteAll(fields: seq<Field>): string {
    if fields == [] then "" else Write(fields[0]) + WriteAll(fields[1..])
  }

  /** Texts without `c` in front of a `c` are found again. */
  lemma {:induction false} FirstMark(a: string, b: string, c: char, x: string, y: string)
    requires c !in a && c !in b && a + [c] + x == b + [c] + y
    ensures a == b && x == y
  {
    var s, t := a + [c] + x, b + [c] + y;
    assert s[|a|] == c && t[|b|] == c;
    assert forall i :: 0 <= i < |a| ==> s[i] == a[i];
    assert forall i :: 0 <= i < |b| ==> t[i] == b[i];
    assert |a| == |b|;
    assert a == s[..|a|] && b == t[..|b|] && x == s[|a| + 1..] && y == t[|b| + 1..];
  }

  lemma {:induction false} SplitSame<T>(a: seq<T>, b: seq<T>, x: seq<T>, y: seq<T>)
    requires |a| == |b| && a + x == b + y
    ensures a == b && x == y
  {
    assert a == (a + x)[..|a|] && b == (b + y)[..|b|] && x == (a + x)[|a|..] && y == (b + y)[|b|..];
  }

  function Body(f: Field): string { Decimal(|f.value|) + ":" + f.value + "\n" }

  lemma {:induction false} BodyCancels(f: Field, g: Field, t: string, u: string)
    requires Body(f) + t == Body(g) + u
    ensures f.value == g.value && t == u
  {
    hide AllDigits, Decimal;
    var m, n := Decimal(|f.value|), Decimal(|g.value|);
    DecimalHasNoMark(|f.value|);
    DecimalHasNoMark(|g.value|);
    var x, y := f.value + ("\n" + t), g.value + ("\n" + u);
    assert Body(f) + t == m + [':'] + x && Body(g) + u == n + [':'] + y;
    FirstMark(m, n, ':', x, y);
    DecimalDiffers(|f.value|, |g.value|);
    SplitSame(f.value, g.value, "\n" + t, "\n" + u);
    SplitSame("\n", "\n", t, u);
  }

  lemma {:induction false} DecimalHasNoMark(n: nat)
    ensures ':' !in Decimal(n) && '=' !in Decimal(n)
  {
    DecimalReads(n);
    assert !IsDigit(':') && !IsDigit('=');
  }

  /** Fields of keys without '=' (or of one and the same key) are read back from a text. */
  lemma {:induction false} FieldCancels(f: Field, g: Field, t: string, u: string)
    requires Write(f) + t == Write(g) + u
    requires f.key == g.key || ('=' !in f.key && '=' !in g.key)
    ensures f == g && t == u
  {
    hide Decimal;
    var x, y := Body(f) + t, Body(g) + u;
    assert Write(f) + t == f.key + ['='] + x && Write(g) + u == g.key + ['='] + y;
    if f.key == g.key {
      SplitSame(f.key + ['='], g.key + ['='], x, y);
    } else {
      FirstMark(f.key, g.key, '=', x, y);
    }
    BodyCancels(f, g, t, u);
  }

  /** A key that is found again: without '=', and told from a text that begins with 'a'. */
  predicate Plain(key: string) { key != "" && key[0] != 'a' && '=' !in key }

  predicate AllPlain(fields: seq<Field>) { forall f :: f in fields ==> Plain(f.key) }

  predicate Ends(t: string) { t == "" || t[0] == 'a' }

  lemma {:induction false} WriteBegins(fields: seq<Field>, t: string)
    requires fields != [] && AllPlain(fields)
    ensures !Ends(WriteAll(fields) + t)
  {
    hide Decimal;
    assert fields[0] in fields;
    assert (WriteAll(fields) + t)[0] == fields[0].key[0];
  }

  lemma {:induction false} TailIsPlain(fields: seq<Field>)
    requires fields != [] && AllPlain(fields)
    ensures Plain(fields[0].key) && AllPlain(fields[1..])
  {
    hide Plain;
    assert fields[0] in fields && forall f :: f in fields[1..] ==> f in fields;
  }

  lemma {:induction false} HeadCancels(fields: seq<Field>, others: seq<Field>, t: string, u: string)
    requires AllPlain(fields) && AllPlain(others) && Ends(t) && Ends(u)
    requires WriteAll(fields) + t == WriteAll(others) + u
    ensures fields == others && t == u
    decreases |fields|
  {
    hide Write, AllPlain, Ends;
    if fields == [] || others == [] {
      assert fields == [] ==> WriteAll(fields) + t == t;
      assert others == [] ==> WriteAll(others) + u == u;
      if fields != [] {
        WriteBegins(fields, t);
      }
      if others != [] {
        WriteBegins(others, u);
      }
    } else {
      TailIsPlain(fields);
      TailIsPlain(others);
      var x, y := WriteAll(fields[1..]) + t, WriteAll(others[1..]) + u;
      assert WriteAll(fields) + t == Write(fields[0]) + x && WriteAll(others) + u == Write(others[0]) + y;
      FieldCancels(fields[0], others[0], x, y);
      HeadCancels(fields[1..], others[1..], t, u);
      assert fields == [fields[0]] + fields[1..] && others == [others[0]] + others[1..];
    }
  }

  // ----- one key, many values -----

  function Run(key: string, values: seq<string>): (r: seq<Field>)
    ensures |r| == |values|
  {
    if values == [] then [] else [Field(key, values[0])] + Run(key, values[1..])
  }

  predicate Stops(key: string, rest: seq<Field>) { rest == [] || rest[0].key != key }

  lemma {:induction false} RunBegins(key: string, v: seq<string>, x: seq<Field>)
    requires v != []
    ensures !Stops(key, Run(key, v) + x)
  {
    assert (Run(key, v) + x)[0] == Run(key, v)[0];
  }

  lemma {:induction false} RunCancels(key: string, v: seq<string>, w: seq<string>, x: seq<Field>, y: seq<Field>)
    requires Run(key, v) + x == Run(key, w) + y && Stops(key, x) && Stops(key, y)
    ensures v == w && x == y
    decreases |v|
  {
    hide Stops;
    if v == [] || w == [] {
      assert v == [] ==> Run(key, v) + x == x;
      assert w == [] ==> Run(key, w) + y == y;
      if v != [] {
        RunBegins(key, v, x);
      }
      if w != [] {
        RunBegins(key, w, y);
      }
    } else {
      var r, s := Run(key, v[1..]) + x, Run(key, w[1..]) + y;
      assert Run(key, v) + x == [Field(key, v[0])] + r && Run(key, w) + y == [Field(key, w[0])] + s;
      SplitSame([Field(key, v[0])], [Field(key, w[0])], r, s);
      RunCancels(key, v[1..], w[1..], x, y);
      assert v == [v[0]] + v[1..] && w == [w[0]] + w[1..];
    }
  }

  lemma {:induction false} RunIsPlain(key: string, values: seq<string>)
    requires Plain(key)
    ensures AllPlain(Run(key, values))
  {
    hide Plain;
    if values != [] {
      RunIsPlain(key, values[1..]);
    }
  }

  lemma {:induction false} PlainConcat(a: seq<Field>, b: seq<Field>)
    requires AllPlain(a) && AllPlain(b)
    ensures AllPlain(a + b)
  {
    hide Plain;
  }

  // ----- the fields of one requirement predicate -----

  function Key(prefix: string, part: string): string { prefix + "." + part }

  function TextFields(prefix: string, s: Subject): seq<Field> {
    [Field(Key(prefix, "definitionPath"), s.definitionPath),
     Field(Key(prefix, "predicateKind"), s.predicateKind),
     Field(Key(prefix, "predicateName"), s.predicateName),
     Field(Key(prefix, "relationOperator"), s.relationOperator),
     Field(Key(prefix, "sourceText"), s.sourceText),
     Field(Key(prefix, "evaluationOutcome"), s.outcome),
     Field(Key(prefix, "evaluationDiagnostic"), s.diagnostic),
     Field(Key(prefix, "semanticNodeId"), Decimal(s.nodeId)),
     Field(Key(prefix, "provenanceHandle"), Decimal(s.handle))]
  }

  function OperandPart(i: nat, part: string): string { "operand." + Decimal(i) + part }

  function OperandField(prefix: string, operand: Operand, i: nat): seq<Field> {
    [Field(Key(prefix, OperandPart(i, ".kind")), operand.kind),
     Field(Key(prefix, OperandPart(i, ".text")), operand.text),
     Field(Key(prefix, OperandPart(i, ".stableHandle")), operand.handle)]
  }

  function OperandFields(prefix: string, operands: seq<Operand>): (r: seq<Field>)
    ensures |r| == 3 * |operands|
  {
    if operands == [] then []
    else OperandFields(prefix, operands[..|operands| - 1]) +
         OperandField(prefix, operands[|operands| - 1], |operands| - 1)
  }

  function SubjectFields(prefix: string, s: Subject): seq<Field> {
    TextFields(prefix, s) +
    (Run(Key(prefix, "compileTimeEffect"), SortUnique(s.effects)) + OperandFields(prefix, s.operands))
  }

  /** The text of one requirement predicate (`requirementFactCacheMaterial`). */
  function FactMaterial(prefix: string, s: Subject): string { WriteAll(SubjectFields(prefix, s)) }

  /** What the fields of a requirement predicate tell of it: all but order and repetition of
      its effects. */
  datatype Gist = Gist(subject: Subject, effects: set<string>)

  function GistOf(s: Subject): Gist { Gist(s.(effects := []), Elements(s.effects)) }

  lemma {:induction false} KeyIsPlain(prefix: string, part: string)
    requires Plain(prefix) && '=' !in part
    ensures Plain(Key(prefix, part))
  {
  }

  lemma {:induction false} TextIsPlain(prefix: string, s: Subject)
    requires Plain(prefix)
    ensures AllPlain(TextFields(prefix, s)) && Plain(Key(prefix, "compileTimeEffect"))
  {
    hide Plain, Key, Decimal;
    KeyIsPlain(prefix, "definitionPath");
    KeyIsPlain(prefix, "predicateKind");
    KeyIsPlain(prefix, "predicateName");
    KeyIsPlain(prefix, "relationOperator");
    KeyIsPlain(prefix, "sourceText");
    KeyIsPlain(prefix, "evaluationOutcome");
    KeyIsPlain(prefix, "evaluationDiagnostic");
    KeyIsPlain(prefix, "semanticNodeId");
    KeyIsPlain(prefix, "provenanceHandle");
    KeyIsPlain(prefix, "compileTimeEffect");
  }

  lemma {:induction false} OperandPartIsPlain(i: nat, part: string)
    requires '=' !in part
    ensures '=' !in OperandPart(i, part)
  {
    hide Decimal;
    DecimalHasNoMark(i);
    assert '=' !in "operand.";
  }

  lemma {:induction false} OperandIsPlain(prefix: string, operand: Operand, i: nat)
    requires Plain(prefix)
    ensures AllPlain(OperandField(prefix, operand, i))
  {
    hide Plain, Key, OperandPart;
    OperandPartIsPlain(i, ".kind");
    OperandPartIsPlain(i, ".text");
    OperandPartIsPlain(i, ".stableHandle");
    KeyIsPlain(prefix, OperandPart(i, ".kind"));
    KeyIsPlain(prefix, OperandPart(i, ".text"));
    KeyIsPlain(prefix, OperandPart(i, ".stableHandle"));
  }

  lemma {:induction false} OperandsArePlain(prefix: string, operands: seq<Operand>)
    requires Plain(prefix)
    ensures AllPlain(OperandFields(prefix, operands))
  {
    hide Plain, AllPlain, OperandField;
    if operands == [] {
      assert AllPlain([]) by { NoFieldIsPlain(); }
    } else {
      var n := |operands| - 1;
      OperandsArePlain(prefix, operands[..n]);
      OperandIsPlain(prefix, operands[n], n);
      PlainConcat(OperandFields(prefix, operands[..n]), OperandField(prefix, operands[n], n));
    }
  }

  lemma {:induction false} NoFieldIsPlain()
    ensures AllPlain([])
  {
  }

  lemma {:induction false} SubjectIsPlain(prefix: string, s: Subject)
    requires Plain(prefix)
    ensures AllPlain(SubjectFields(prefix, s))
  {
    hide Plain, AllPlain, TextFields, OperandFields, Run, Key, SortUnique;
    TextIsPlain(prefix, s);
    RunIsPlain(Key(prefix, "compileTimeEffect"), SortUnique(s.effects));
    OperandsArePlain(prefix, s.operands);
    PlainConcat(Run(Key(prefix, "compileTimeEffect"), SortUnique(s.effects)), OperandFields(prefix, s.operands));
    PlainConcat(TextFields(prefix, s),
                Run(Key(prefix, "compileTimeEffect"), SortUnique(s.effects)) + OperandFields(prefix, s.operands));
  }

  // ----- fields determine the gist -----

  lemma {:induction false} TextFieldsTell(prefix: string, s: Subject, t: Subject)
    requires TextFields(prefix, s) == TextFields(prefix, t)
    ensures s.(effects := [], operands := []) == t.(effects := [], operands := [])
  {
    hide Key, Decimal;
    var f, g := TextFields(prefix, s), TextFields(prefix, t);
    assert f[0] == g[0] && f[1] == g[1] && f[2] == g[2] && f[3] == g[3] && f[4] == g[4];
    assert f[5] == g[5] && f[6] == g[6] && f[7] == g[7] && f[8] == g[8];
    DecimalDiffers(s.nodeId, t.nodeId);
    DecimalDiffers(s.handle, t.handle);
  }

  lemma {:induction false} OperandFieldsTell(prefix: string, p: seq<Operand>, q: seq<Operand>)
    requires OperandFields(prefix, p) == OperandFields(prefix, q)
    ensures p == q
    decreases |p|
  {
    hide OperandField;
    assert |p| == |q|;
    if p != [] {
      var n := |p| - 1;
      SplitSame(OperandFields(prefix, p[..n]), OperandFields(prefix, q[..n]),
                OperandField(prefix, p[n], n), OperandField(prefix, q[n], n));
      OperandFieldsTell(prefix, p[..n], q[..n]);
      OperandFieldTells(prefix, p[n], q[n], n);
      assert p == p[..n] + [p[n]] && q == q[..n] + [q[n]];
    }
  }

  lemma {:induction false} OperandFieldTells(prefix: string, p: Operand, q: Operand, i: nat)
    requires OperandField(prefix, p, i) == OperandField(prefix, q, i)
    ensures p == q
  {
    hide Key, OperandPart;
    var f, g := OperandField(prefix, p, i), OperandField(prefix, q, i);
    assert f[0] == g[0] && f[1] == g[1] && f[2] == g[2];
  }

  lemma {:induction false} OperandsStop(prefix: string, operands: seq<Operand>)
    ensures Stops(Key(prefix, "compileTimeEffect"), OperandFields(prefix, operands))
    decreases |operands|
  {
    hide OperandPart;
    if |operands| == 1 {
      assert operands[..0] == [];
      OperandPartBegins(0, ".kind");
      assert Key(prefix, OperandPart(0, ".kind"))[|prefix| + 1] == 'o';
      assert Key(prefix, "compileTimeEffect")[|prefix| + 1] == 'c';
      assert OperandFields(prefix, operands)[0].key == Key(prefix, OperandPart(0, ".kind"));
    } else if |operands| > 1 {
      OperandsStop(prefix, operands[..|operands| - 1]);
    }
  }

  lemma {:induction false} OperandPartBegins(i: nat, part: string)
    ensures OperandPart(i, part) != "" && OperandPart(i, part)[0] == 'o'
  {
    hide Decimal;
  }

  lemma {:induction false} SubjectFieldsTell(prefix: string, s: Subject, t: Subject)
    requires SubjectFields(prefix, s) == SubjectFields(prefix, t)
    ensures GistOf(s) == GistOf(t)
  {
    hide TextFields, OperandFields, Run, Key, SortUnique, Stops, Elements;
    var key := Key(prefix, "compileTimeEffect");
    var x, y := OperandFields(prefix, s.operands), OperandFields(prefix, t.operands);
    var v, w := SortUnique(s.effects), SortUnique(t.effects);
    TextFieldCount(prefix, s);
    TextFieldCount(prefix, t);
    SplitSame(TextFields(prefix, s), TextFields(prefix, t), Run(key, v) + x, Run(key, w) + y);
    TextFieldsTell(prefix, s, t);
    OperandsStop(prefix, s.operands);
    OperandsStop(prefix, t.operands);
    RunCancels(key, v, w, x, y);
    OperandFieldsTell(prefix, s.operands, t.operands);
    SortUniqueForgetsRepetition(s.effects, t.effects);
  }

  lemma {:induction false} TextFieldCount(prefix: string, s: Subject)
    ensures |TextFields(prefix, s)| == 9
  {
    hide Key, Decimal;
  }

  lemma {:induction false} GistTellsFields(prefix: string, s: Subject, t: Subject)
    requires GistOf(s) == GistOf(t)
    ensures SubjectFields(prefix, s) == SubjectFields(prefix, t)
  {
    hide Key, SortUnique, Elements, Decimal, Run, OperandFields;
    SortUniqueForgetsRepetition(s.effects, t.effects);
    var a, b := s.(effects := []), t.(effects := []);
    assert a == b;
    assert s.operands == a.operands && t.operands == b.operands;
    assert TextFields(prefix, s) == TextFields(prefix, a) && TextFields(prefix, t) == TextFields(prefix, b);
  }

  /** Two requirement predicates are written alike exactly when they agree in every text, id
      and operand and in the set of their effects. */
  lemma {:induction false} FactMaterialIsExact(prefix: string, s: Subject, t: Subject)
    requires Plain(prefix)
    ensures FactMaterial(prefix, s) == FactMaterial(prefix, t) <==> GistOf(s) == GistOf(t)
  {
    hide SubjectFields, GistOf, AllPlain, Plain, WriteAll;
    if GistOf(s) == GistOf(t) {
      GistTellsFields(prefix, s, t);
    }
    if FactMaterial(prefix, s) == FactMaterial(prefix, t) {
      SubjectIsPlain(prefix, s);
      SubjectIsPlain(prefix, t);
      var f, g := SubjectFields(prefix, s), SubjectFields(prefix, t);
      assert WriteAll(f) + "" == WriteAll(f) && WriteAll(g) + "" == WriteAll(g);
      HeadCancels(f, g, "", "");
      SubjectFieldsTell(prefix, s, t);
    }
  }
}
