/**
 * The record shape of the Car table (models/car_model.py) and the meaning
 * of the SQL predicates the generic CRUD layer builds over it: comparisons
 * with SQL's NULL rules as SQLAlchemy renders them, the `<like predicate>`
 * of ISO/IEC 9075 with its two wildcards, and the ascending sort order of
 * an ORDER BY clause.
 */
module Records {
  import opened Text

  /** A column value: an integer, a string, or SQL NULL. */
  datatype Value = IntV(i: int) | StrV(s: string) | NullV

  /** The mapped columns of `Car`. */
  datatype Column = Id | Model | Year

  /** One row of the table; `id` is the integer primary key. */
  datatype Car = Car(id: int, model: Value, year: Value)

  /** `getattr(Car, name)` restricted to the mapped columns. */
  function ColumnNamed(name: string): Option<Column> {
    if name == "id" then Some(Id)
    else if name == "model" then Some(Model)
    else if name == "year" then Some(Year)
    else None
  }

  function ColumnName(c: Column): string {
    match c
    case Id => "id"
    case Model => "model"
    case Year => "year"
  }

  lemma ColumnNamedInverse(name: string, c: Column)
    ensures ColumnNamed(name) == Some(c) <==> name == ColumnName(c)
  {
  }

  /** The value a row holds in a column. */
  function Attr(car: Car, c: Column): Value {
    match c
    case Id => IntV(car.id)
    case Model => car.model
    case Year => car.year
  }

  // ---------------------------------------------------------------------
  // Ordering of values (ORDER BY ... ASC)
  // ---------------------------------------------------------------------

  /**
   * Lexicographic order of strings by code point: a proper prefix sorts
   * first, and no string sorts before itself.
   */
  predicate StrLess(a: string, b: string)
    ensures a < b ==> StrLess(a, b)
    ensures StrLess(a, b) ==> a != b
  {
    if a == [] then b != []
    else if b == [] then false
    else
      assert a < b ==> a[0] == b[0] && a[1..] < b[1..];
      a[0] < b[0] || (a[0] == b[0] && StrLess(a[1..], b[1..]))
  }

  lemma {:induction false} StrLessTrichotomy(a: string, b: string)
    ensures a == b || StrLess(a, b) || StrLess(b, a)
    ensures !(StrLess(a, b) && StrLess(b, a))
    ensures !StrLess(a, a)
  {
    if a != [] && b != [] {
      StrLessTrichotomy(a[1..], b[1..]);
      if a[0] == b[0] && a[1..] == b[1..] {
        assert a == [a[0]] + a[1..] && b == [b[0]] + b[1..];
      }
    }
    if a != [] {
      StrLessTrichotomy(a[1..], a[1..]);
    }
  }

  lemma {:induction false} StrLessTransitive(a: string, b: string, c: string)
    requires StrLess(a, b) && StrLess(b, c)
    ensures StrLess(a, c)
  {
    if a != [] && a[0] == b[0] && b[0] == c[0] {
      StrLessTransitive(a[1..], b[1..], c[1..]);
    }
  }

  /**
   * Ascending order of column values: integers numerically, strings
   * lexicographically, NULL after everything else (NULLS LAST).
   */
  predicate ValueLess(a: Value, b: Value)
    ensures a.NullV? ==> !ValueLess(a, b)
    ensures !a.NullV? && b.NullV? ==> ValueLess(a, b)
  {
    match (a, b)
    case (IntV(x), IntV(y)) => x < y
    case (StrV(x), StrV(y)) => StrLess(x, y)
    case (IntV(_), StrV(_)) => true
    case (StrV(_), IntV(_)) => false
    case (NullV, _) => false
    case (_, NullV) => true
  }

  /** ValueLess is a strict total order. */
  lemma ValueLessTotal(a: Value, b: Value)
    ensures a == b || ValueLess(a, b) || ValueLess(b, a)
    ensures !(ValueLess(a, b) && ValueLess(b, a))
  {
    if a.StrV? && b.StrV? {
      StrLessTrichotomy(a.s, b.s);
    }
  }

  lemma ValueLessTransitive(a: Value, b: Value, c: Value)
    requires ValueLess(a, b) && ValueLess(b, c)
    ensures ValueLess(a, c)
  {
    if a.StrV? && b.StrV? && c.StrV? {
      StrLessTransitive(a.s, b.s, c.s);
    }
  }

  /**
   * Row order for ORDER BY `c`: by the column's value, ties broken by id.
   * The tie-break is this model's choice; with c == Id it never applies.
   */
  predicate Precedes(a: Car, b: Car, c: Column) {
    ValueLess(Attr(a, c), Attr(b, c)) || (Attr(a, c) == Attr(b, c) && a.id <= b.id)
  }

  lemma PrecedesTotal(a: Car, b: Car, c: Column)
    ensures Precedes(a, b, c) || Precedes(b, a, c)
  {
    ValueLessTotal(Attr(a, c), Attr(b, c));
  }

  lemma PrecedesTransitive(a: Car, b: Car, x: Car, c: Column)
    requires Precedes(a, b, c) && Precedes(b, x, c)
    ensures Precedes(a, x, c)
  {
    var va, vb, vx := Attr(a, c), Attr(b, c), Attr(x, c);
    if ValueLess(va, vb) && ValueLess(vb, vx) {
      ValueLessTransitive(va, vb, vx);
    }
  }

  /** Ordering by the primary key is ordering by id. */
  lemma PrecedesById(a: Car, b: Car)
    ensures Precedes(a, b, Id) <==> a.id <= b.id
  {
  }

  // ---------------------------------------------------------------------
  // Comparison predicates
  // ---------------------------------------------------------------------

  datatype Cmp = Eq | Ne | Lt | Le | Gt | Ge

  /** Both values are non-NULL and of the same kind, so `<` etc. apply. */
  predicate Comparable(a: Value, b: Value) {
    (a.IntV? && b.IntV?) || (a.StrV? && b.StrV?)
  }

  /**
   * Whether `field <op> arg` keeps a row. A NULL operand makes an SQL
   * comparison unknown, which a WHERE clause drops; SQLAlchemy renders
   * `== None` as IS NULL and `!= None` as IS NOT NULL. Values of different
   * kinds are never equal and never ordered.
   */
  predicate Compare(op: Cmp, field: Value, arg: Value)
    ensures Compare(op, field, arg) && !arg.NullV? ==> !field.NullV?
    ensures Compare(op, field, arg) && op in {Lt, Le, Gt, Ge} ==> Comparable(field, arg)
  {
    match op
    case Eq => if arg.NullV? then field.NullV? else field == arg
    case Ne => if arg.NullV? then !field.NullV? else !field.NullV? && field != arg
    case Lt => Comparable(field, arg) && ValueLess(field, arg)
    case Le => Comparable(field, arg) && (ValueLess(field, arg) || field == arg)
    case Gt => Comparable(field, arg) && ValueLess(arg, field)
    case Ge => Comparable(field, arg) && (ValueLess(arg, field) || field == arg)
  }

  /** `=` and `!=` split the non-NULL rows between them. */
  lemma EqNeComplement(field: Value, arg: Value)
    requires !field.NullV?
    ensures Compare(Eq, field, arg) != Compare(Ne, field, arg)
  {
  }

  /** `<`, `=` and `>` split the rows comparable with the argument. */
  lemma LtEqGtTrichotomy(field: Value, arg: Value)
    requires Comparable(field, arg)
    ensures Compare(Lt, field, arg) || Compare(Eq, field, arg) || Compare(Gt, field, arg)
    ensures !(Compare(Lt, field, arg) && Compare(Gt, field, arg))
    ensures Compare(Le, field, arg) <==> Compare(Lt, field, arg) || Compare(Eq, field, arg)
  {
    ValueLessTotal(field, arg);
  }

  /**
   * `field IN (vs)`: a non-NULL field equal to some listed value. It never
   * holds together with NOT IN, and on a non-NULL field and a list without
   * NULL exactly one of the two holds.
   */
  predicate InList(field: Value, vs: seq<Value>)
    ensures InList(field, vs) ==> !NotInList(field, vs)
    ensures !field.NullV? && NullV !in vs && !InList(field, vs) ==> NotInList(field, vs)
  {
    !field.NullV? && field in vs
  }

  /**
   * `field NOT IN (vs)`: an empty list excludes nothing; otherwise a NULL on
   * either side makes the test unknown.
   */
  predicate NotInList(field: Value, vs: seq<Value>)
    ensures NotInList(field, vs) && vs != [] ==> !field.NullV?
  {
    vs == [] || (!field.NullV? && NullV !in vs && field !in vs)
  }

  /** IN is the disjunction of equalities with the listed values. */
  lemma InListIsAnyEq(field: Value, vs: seq<Value>)
    ensures InList(field, vs) <==> exists k :: 0 <= k < |vs| && !vs[k].NullV? && Compare(Eq, field, vs[k])
  {
    if InList(field, vs) {
      var k :| 0 <= k < |vs| && vs[k] == field;
      assert Compare(Eq, field, vs[k]);
    }
  }

  /** NOT IN over a non-empty list is the conjunction of inequalities. */
  lemma NotInListIsAllNe(field: Value, vs: seq<Value>)
    requires vs != []
    ensures NotInList(field, vs) <==> forall k :: 0 <= k < |vs| ==> !vs[k].NullV? && Compare(Ne, field, vs[k])
  {
    if field.NullV? {
      assert !Compare(Ne, field, vs[0]);
    } else if !NotInList(field, vs) {
      if NullV in vs {
        var k :| 0 <= k < |vs| && vs[k] == NullV;
        assert vs[k].NullV?;
      } else {
        var k :| 0 <= k < |vs| && vs[k] == field;
        assert !Compare(Ne, field, vs[k]);
      }
    }
  }

  // ---------------------------------------------------------------------
  // LIKE
  // ---------------------------------------------------------------------

  /**
   * `s LIKE p`: `%` matches any run of characters, `_` any one character,
   * every other character itself. No escape character is in use. Without
   * `%`, a pattern only matches strings of its own length.
   */
  predicate Like(s: string, p: string)
    ensures Like(s, p) && '%' !in p ==> |s| == |p|
    decreases |s| + |p|
  {
    if p == [] then s == []
    else if p[0] == '%' then Like(s, p[1..]) || (s != [] && Like(s[1..], p))
    else
      assert '%' !in p ==> '%' !in p[1..];
      s != [] && (p[0] == '_' || p[0] == s[0]) && Like(s[1..], p[1..])
  }

  /** A pattern with neither wildcard. */
  predicate NoWildcards(p: string) {
    '%' !in p && '_' !in p
  }

  /** `s` contains `v` as a contiguous substring. */
  predicate Contains(s: string, v: string) {
    exists k :: 0 <= k <= |s| && v <= s[k..]
  }

  /** A pattern without wildcards matches exactly itself. */
  lemma {:induction false} LikeLiteral(s: string, p: string)
    requires NoWildcards(p)
    ensures Like(s, p) <==> s == p
  {
    if p != [] && s != [] {
      assert NoWildcards(p[1..]);
      LikeLiteral(s[1..], p[1..]);
      assert s == [s[0]] + s[1..] && p == [p[0]] + p[1..];
    }
  }

  /** `%` alone matches every string. */
  lemma {:induction false} LikePercent(s: string)
    ensures Like(s, "%")
  {
    if s != [] {
      LikePercent(s[1..]);
    }
  }

  /** `v%` with a literal `v` is a prefix test. */
  lemma {:induction false} LikePrefix(s: string, v: string)
    requires NoWildcards(v)
    ensures Like(s, v + "%") <==> v <= s
  {
    if v == [] {
      assert v + "%" == "%";
      LikePercent(s);
    } else {
      assert (v + "%")[1..] == v[1..] + "%";
      assert NoWildcards(v[1..]);
      if s != [] {
        LikePrefix(s[1..], v[1..]);
      }
    }
  }

  /** A leading `%` lets the rest of the pattern start at any position. */
  lemma {:induction false} LikeLeadingPercent(s: string, q: string)
    ensures Like(s, "%" + q) <==> exists k :: 0 <= k <= |s| && Like(s[k..], q)
  {
    var p := "%" + q;
    assert p[1..] == q;
    assert s[0..] == s;
    if s != [] {
      LikeLeadingPercent(s[1..], q);
      if Like(s[1..], p) {
        var k :| 0 <= k <= |s[1..]| && Like(s[1..][k..], q);
        assert s[1..][k..] == s[k + 1..];
      }
      if exists k :: 0 <= k <= |s| && Like(s[k..], q) {
        var k :| 0 <= k <= |s| && Like(s[k..], q);
        if k > 0 {
          assert s[1..][k - 1..] == s[k..];
        }
      }
    }
  }

  /** `%v%` with a literal `v` is a substring test. */
  lemma LikeSubstring(s: string, v: string)
    requires NoWildcards(v)
    ensures Like(s, "%" + v + "%") <==> Contains(s, v)
  {
    assert "%" + v + "%" == "%" + (v + "%");
    LikeLeadingPercent(s, v + "%");
    if Contains(s, v) {
      var k :| 0 <= k <= |s| && v <= s[k..];
      LikePrefix(s[k..], v);
    }
    if exists k :: 0 <= k <= |s| && Like(s[k..], v + "%") {
      var k :| 0 <= k <= |s| && Like(s[k..], v + "%");
      LikePrefix(s[k..], v);
    }
  }

  /** ASCII lower case (the case folding this model gives ILIKE). */
  function LowerChar(c: char): char {
    if 'A' <= c <= 'Z' then (c as int + 32) as char else c
  }

  function Lower(s: string): (r: string)
    ensures |r| == |s| && forall k :: 0 <= k < |s| ==> r[k] == LowerChar(s[k])
  {
    seq(|s|, k requires 0 <= k < |s| => LowerChar(s[k]))
  }

  /** `field LIKE arg` on values: only a string field and a string pattern match. */
  predicate LikeValue(field: Value, arg: Value) {
    field.StrV? && arg.StrV? && Like(field.s, arg.s)
  }

  /** `field ILIKE arg`: LIKE after folding both sides to lower case. */
  predicate ILikeValue(field: Value, arg: Value) {
    field.StrV? && arg.StrV? && Like(Lower(field.s), Lower(arg.s))
  }

  /** ILIKE cannot tell apart two strings that differ only in the case of their letters. */
  lemma ILikeIgnoresCase(a: string, b: string, p: Value)
    requires Lower(a) == Lower(b)
    ensures ILikeValue(StrV(a), p) <==> ILikeValue(StrV(b), p)
  {
  }

  /** Folding keeps the wildcards: only `A`..`Z` change, and they become letters. */
  lemma LowerKeepsNoWildcards(p: string)
    requires NoWildcards(p)
    ensures NoWildcards(Lower(p))
  {
    forall k | 0 <= k < |p| ensures Lower(p)[k] != '%' && Lower(p)[k] != '_' {
      assert p[k] in p;
    }
  }

  /** Without wildcards, ILIKE is equality up to case. */
  lemma ILikeLiteral(a: string, p: string)
    requires NoWildcards(p)
    ensures ILikeValue(StrV(a), StrV(p)) <==> Lower(a) == Lower(p)
  {
    LowerKeepsNoWildcards(p);
    LikeLiteral(Lower(a), Lower(p));
  }

  /** `ABC` ILIKE `abc` holds, where `ABC` LIKE `abc` does not. */
  lemma ILikeExample()
    ensures ILikeValue(StrV("ABC"), StrV("abc"))
    ensures !LikeValue(StrV("ABC"), StrV("abc"))
  {
    assert Lower("ABC") == "abc";
    assert Lower("abc") == "abc";
    LikeLiteral("abc", "abc");
    LikeLiteral("ABC", "abc");
  }
}
