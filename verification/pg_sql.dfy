/** The placeholder rewrite the database layer applies before handing a
    query to PostgreSQL: every `?` becomes `$1`, `$2`, ... from left to
    right, and the parameters pass through. */
module PgSql {
  import opened Decimal
  import opened Strings
  import opened Seqs

  datatype Query<P> = Query(sql: string, params: seq<P>)

  function Placeholder(k: nat): (p: string)
    ensures |p| >= 2 && p[0] == '$'
    ensures '?' !in p
  {
    var digits := NatToString(k);
    assert forall k :: 0 <= k < |digits| ==> digits[k] != '?';
    "$" + digits
  }

  /** The rest `s` of the query once `seen` placeholders have been
      replaced. */
  function Convert(s: string, seen: nat): string {
    if |s| == 0 then ""
    else if s[0] == '?' then Placeholder(seen + 1) + Convert(s[1..], seen + 1)
    else [s[0]] + Convert(s[1..], seen)
  }

  /** No `?` survives the rewrite, and text without one passes through
      unchanged. */
  lemma {:induction false} ConvertRemovesPlaceholders(s: string, seen: nat)
    ensures '?' !in Convert(s, seen)
    ensures '?' !in s ==> Convert(s, seen) == s
  {
    if |s| > 0 {
      var rest := Convert(s[1..], if s[0] == '?' then seen + 1 else seen);
      ConvertRemovesPlaceholders(s[1..], if s[0] == '?' then seen + 1 else seen);
      var head := if s[0] == '?' then Placeholder(seen + 1) else [s[0]];
      assert Convert(s, seen) == head + rest;
      assert '?' !in head;
      assert '?' !in s ==> '?' !in s[1..] by {
        if '?' !in s {
          forall k | 0 <= k < |s[1..]| ensures s[1..][k] != '?' {
            assert s[1..][k] == s[k + 1];
          }
        }
      }
      assert s == [s[0]] + s[1..];
    }
  }

  /** `toPgSql(sql, params)`. */
  function ToPgSql<P>(sql: string, params: seq<P>): (q: Query<P>)
    ensures q.params == params
    ensures '?' !in q.sql
    ensures '?' !in sql ==> q.sql == sql
  {
    ConvertRemovesPlaceholders(sql, 0);
    Query(Convert(sql, 0), params)
  }

  /** The pieces of the query between placeholders, with the k-th
      placeholder (counting from `seen + 1`) between piece k-1 and piece
      k. */
  function Numbered(pieces: seq<string>, seen: nat): string
    requires |pieces| >= 1
  {
    if |pieces| == 1 then pieces[0]
    else pieces[0] + Placeholder(seen + 1) + Numbered(pieces[1..], seen + 1)
  }

  lemma {:induction false} ConvertNumbers(s: string, seen: nat)
    ensures Convert(s, seen) == Numbered(Split(s, '?'), seen)
  {
    if |s| > 0 {
      var rest := Split(s[1..], '?');
      var pieces := Split(s, '?');
      if s[0] == '?' {
        ConvertNumbers(s[1..], seen + 1);
        assert pieces == [""] + rest;
        assert pieces[1..] == rest;
      } else {
        ConvertNumbers(s[1..], seen);
        assert pieces == [[s[0]] + rest[0]] + rest[1..];
        if |rest| > 1 {
          assert pieces[1..] == rest[1..];
        }
      }
    }
  }

  /** The k-th `?` of the query, counting from the left, is replaced by
      `$k`, and the text between placeholders is kept in order. */
  lemma PlaceholdersNumberedLeftToRight<P>(sql: string, params: seq<P>)
    ensures ToPgSql(sql, params).sql == Numbered(Split(sql, '?'), 0)
  {
    ConvertNumbers(sql, 0);
  }

  function CountPlaceholders(s: string): nat {
    if |s| == 0 then 0 else (if s[0] == '?' then 1 else 0) + CountPlaceholders(s[1..])
  }

  /** Rewriting a concatenation rewrites the second part with the count
      carried over from the first. */
  lemma {:induction false} ConvertConcat(a: string, b: string, seen: nat)
    ensures Convert(a + b, seen) == Convert(a, seen) + Convert(b, seen + CountPlaceholders(a))
  {
    if |a| == 0 {
      assert a + b == b;
    } else {
      var ab := a + b;
      assert ab[0] == a[0];
      assert ab[1..] == a[1..] + b;
      var n := if a[0] == '?' then 1 else 0;
      var head := if a[0] == '?' then Placeholder(seen + 1) else [a[0]];
      ConvertConcat(a[1..], b, seen + n);
      var x, y := Convert(a[1..], seen + n), Convert(b, seen + CountPlaceholders(a));
      assert Convert(ab, seen) == head + (x + y);
      assert Convert(a, seen) == head + x;
      AppendAssoc(head, x, y);
    }
  }

  /** A `?` preceded by `k` others becomes `$(k+1)`. */
  lemma PlaceholderAfter<P>(a: string, b: string, params: seq<P>)
    requires '?' !in b
    ensures ToPgSql(a + "?" + b, params).sql == Convert(a, 0) + Placeholder(CountPlaceholders(a) + 1) + b
  {
    var c := CountPlaceholders(a);
    var qb := "?" + b;
    assert a + "?" + b == a + qb;
    ConvertConcat(a, qb, 0);
    assert qb[0] == '?' && qb[1..] == b;
    ConvertRemovesPlaceholders(b, c + 1);
    assert Convert(qb, c) == Placeholder(c + 1) + b;
    var x, y := Convert(a, 0), Placeholder(c + 1);
    assert Convert(a + qb, 0) == x + (y + b);
    AppendAssoc(x, y, b);
    assert ToPgSql(a + "?" + b, params).sql == Convert(a + qb, 0);
  }
}
