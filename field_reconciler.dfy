/** Field reconciliation: which columns survive when the caller asks for a list of
    fields. Exact matches are kept in the order requested, right after the geometry
    column; every requested field that is not a column is reported missing, and every
    column that is a substring of a missing field, or has it as a substring, is
    appended if it is not already kept. */
module FieldReconciler {
  import opened Wrappers
  import opened GeoData

  // ----- Python's `in` on two strings -----

  /** `needle` occurs in `hay` starting at index `k`. */
  ghost predicate OccursAt(needle: string, hay: string, k: int)
  {
    0 <= k && k + |needle| <= |hay| && hay[k..k + |needle|] == needle
  }

  /** `needle` is a contiguous part of `hay` (the empty string is part of every string). */
  ghost predicate IsSubstring(needle: string, hay: string)
  {
    exists k :: OccursAt(needle, hay, k)
  }

  /** Python's `needle in hay` on strings, by scanning `hay` left to right. */
  function Contains(hay: string, needle: string): bool
    decreases |hay|
  {
    if |needle| > |hay| then false
    else if hay[..|needle|] == needle then true
    else Contains(hay[1..], needle)
  }

  /** The scan finds `needle` exactly when it occurs somewhere in `hay`. */
  lemma {:induction false} ContainsIsSubstring(hay: string, needle: string)
    ensures Contains(hay, needle) <==> IsSubstring(needle, hay)
    decreases |hay|
  {
    if |needle| > |hay| {
      assert !IsSubstring(needle, hay);
    } else if hay[..|needle|] == needle {
      assert OccursAt(needle, hay, 0);
    } else {
      ContainsIsSubstring(hay[1..], needle);
      if IsSubstring(needle, hay) {
        var k :| OccursAt(needle, hay, k);
        assert k != 0;
        OccursInTail(needle, hay, k - 1);
      }
      if IsSubstring(needle, hay[1..]) {
        var k :| OccursAt(needle, hay[1..], k);
        OccursInTail(needle, hay, k);
      }
    }
  }

  /** An occurrence at `k + 1` is an occurrence at `k` in the string without its first character. */
  lemma OccursInTail(needle: string, hay: string, k: nat)
    requires hay != []
    ensures OccursAt(needle, hay, k + 1) <==> OccursAt(needle, hay[1..], k)
  {
    if k + 1 + |needle| <= |hay| {
      assert hay[k + 1..k + 1 + |needle|] == hay[1..][k..k + |needle|];
    }
  }

  /** The fuzzy-match test: either name is contained in the other. */
  predicate Related(missingField: string, availableField: string)
  {
    Contains(availableField, missingField) || Contains(missingField, availableField)
  }

  // ----- Exact matches and missing fields -----

  /** `sub` is obtained from `s` by deleting elements (order kept). */
  ghost predicate Subsequence<T>(sub: seq<T>, s: seq<T>)
    decreases |s|
  {
    if sub == [] then true
    else if s == [] then false
    else (sub[|sub| - 1] == s[|s| - 1] && Subsequence(sub[..|sub| - 1], s[..|s| - 1]))
         || Subsequence(sub, s[..|s| - 1])
  }

  /** The requested fields that are columns, in requested order (duplicates kept). */
  function ExactMatches(keepFields: seq<string>, columns: seq<string>): (r: seq<string>)
    ensures forall x :: x in r <==> x in keepFields && x in columns
    decreases |keepFields|
  {
    if keepFields == [] then []
    else
      var earlier := keepFields[..|keepFields| - 1];
      var field := keepFields[|keepFields| - 1];
      assert keepFields == earlier + [field];
      var rest := ExactMatches(earlier, columns);
      if field in columns then rest + [field] else rest
  }

  /** The requested fields that are not columns, in requested order. */
  function MissingFields(keepFields: seq<string>, columns: seq<string>): (r: seq<string>)
    ensures forall x :: x in r <==> x in keepFields && x !in columns
    decreases |keepFields|
  {
    if keepFields == [] then []
    else
      var earlier := keepFields[..|keepFields| - 1];
      var field := keepFields[|keepFields| - 1];
      assert keepFields == earlier + [field];
      var rest := MissingFields(earlier, columns);
      if field !in columns then rest + [field] else rest
  }

  /** Exact matches and missing fields split the request between them: each keeps the
      requested order, and together they hold every requested field exactly as often
      as it was requested. */
  lemma ExactAndMissingPartition(keepFields: seq<string>, columns: seq<string>)
    ensures Subsequence(ExactMatches(keepFields, columns), keepFields)
    ensures Subsequence(MissingFields(keepFields, columns), keepFields)
    ensures multiset(ExactMatches(keepFields, columns)) + multiset(MissingFields(keepFields, columns))
            == multiset(keepFields)
  {
    ExactMatchesInOrder(keepFields, columns);
    MissingFieldsInOrder(keepFields, columns);
    ExactAndMissingCounts(keepFields, columns);
  }

  lemma {:induction false} ExactMatchesInOrder(keepFields: seq<string>, columns: seq<string>)
    ensures Subsequence(ExactMatches(keepFields, columns), keepFields)
    decreases |keepFields|
  {
    if keepFields != [] {
      var earlier := keepFields[..|keepFields| - 1];
      var field := keepFields[|keepFields| - 1];
      assert keepFields == earlier + [field];
      ExactMatchesInOrder(earlier, columns);
      var e := ExactMatches(earlier, columns);
      SubsequenceOfLonger(e, earlier, field);
      if field in columns {
        assert (e + [field])[..|e|] == e;
      }
    }
  }

  lemma {:induction false} MissingFieldsInOrder(keepFields: seq<string>, columns: seq<string>)
    ensures Subsequence(MissingFields(keepFields, columns), keepFields)
    decreases |keepFields|
  {
    if keepFields != [] {
      var earlier := keepFields[..|keepFields| - 1];
      var field := keepFields[|keepFields| - 1];
      assert keepFields == earlier + [field];
      MissingFieldsInOrder(earlier, columns);
      var m := MissingFields(earlier, columns);
      SubsequenceOfLonger(m, earlier, field);
      if field !in columns {
        assert (m + [field])[..|m|] == m;
      }
    }
  }

  lemma {:induction false} ExactAndMissingCounts(keepFields: seq<string>, columns: seq<string>)
    ensures multiset(ExactMatches(keepFields, columns)) + multiset(MissingFields(keepFields, columns))
            == multiset(keepFields)
    decreases |keepFields|
  {
    if keepFields != [] {
      var earlier := keepFields[..|keepFields| - 1];
      var field := keepFields[|keepFields| - 1];
      assert keepFields == earlier + [field];
      ExactAndMissingCounts(earlier, columns);
    }
  }

  /** A subsequence of `s` is a subsequence of `s` with one more element at the end. */
  lemma SubsequenceOfLonger<T>(sub: seq<T>, s: seq<T>, x: T)
    requires Subsequence(sub, s)
    ensures Subsequence(sub, s + [x])
  {
    assert (s + [x])[..|s|] == s;
  }

  // ----- Fuzzy candidates and the guarded append -----

  /** The available fields related to one missing field, in column order. */
  function RowCandidates(missingField: string, available: seq<string>): seq<string>
    decreases |available|
  {
    if available == [] then []
    else
      var rest := RowCandidates(missingField, available[..|available| - 1]);
      var field := available[|available| - 1];
      if Related(missingField, field) then rest + [field] else rest
  }

  /** Every (missing field, available field) match, missing field by missing field and
      within one missing field in column order: the order in which the nested loops
      meet them. */
  function Candidates(missing: seq<string>, available: seq<string>): seq<string>
    decreases |missing|
  {
    if missing == [] then []
    else Candidates(missing[..|missing| - 1], available) + RowCandidates(missing[|missing| - 1], available)
  }

  /** The candidates for one missing field are the available fields related to it. */
  lemma {:induction false} RowCandidatesMembers(missingField: string, available: seq<string>)
    ensures forall x :: x in RowCandidates(missingField, available) <==>
                        x in available && Related(missingField, x)
    decreases |available|
  {
    if available != [] {
      var earlier := available[..|available| - 1];
      assert available == earlier + [available[|available| - 1]];
      RowCandidatesMembers(missingField, earlier);
    }
  }

  /** A name is a candidate iff it is an available field related to some missing field. */
  lemma {:induction false} CandidatesMembers(missing: seq<string>, available: seq<string>)
    ensures forall x :: x in Candidates(missing, available) <==>
                        x in available && exists m :: m in missing && Related(m, x)
    decreases |missing|
  {
    if missing != [] {
      var earlier := missing[..|missing| - 1];
      assert missing == earlier + [missing[|missing| - 1]];
      CandidatesMembers(earlier, available);
      RowCandidatesMembers(missing[|missing| - 1], available);
    }
  }

  /** Appends the candidates one at a time, each only if it is not already in the list. */
  function AppendAbsent(acc: seq<string>, cands: seq<string>): seq<string>
    decreases |cands|
  {
    if cands == [] then acc
    else
      var grown := AppendAbsent(acc, cands[..|cands| - 1]);
      var c := cands[|cands| - 1];
      if c in grown then grown else grown + [c]
  }

  /** The guarded append never changes the list it starts from. */
  lemma {:induction false} AppendAbsentKeepsPrefix(acc: seq<string>, cands: seq<string>)
    ensures |AppendAbsent(acc, cands)| >= |acc| && AppendAbsent(acc, cands)[..|acc|] == acc
    decreases |cands|
  {
    if cands != [] {
      var grown := AppendAbsent(acc, cands[..|cands| - 1]);
      AppendAbsentKeepsPrefix(acc, cands[..|cands| - 1]);
      assert (grown + [cands[|cands| - 1]])[..|acc|] == grown[..|acc|];
    }
  }

  /** After the guarded append the list holds exactly the starting names and the
      candidates. */
  lemma {:induction false} AppendAbsentMembers(acc: seq<string>, cands: seq<string>)
    ensures forall x :: x in AppendAbsent(acc, cands) <==> x in acc || x in cands
    decreases |cands|
  {
    if cands != [] {
      var earlier := cands[..|cands| - 1];
      assert cands == earlier + [cands[|cands| - 1]];
      AppendAbsentMembers(acc, earlier);
    }
  }

  /** Every name the guarded append adds is new when added: it is neither a starting
      name nor added before. */
  lemma {:induction false} AppendAbsentAddsOnlyNew(acc: seq<string>, cands: seq<string>)
    ensures forall i :: |acc| <= i < |AppendAbsent(acc, cands)| ==>
              AppendAbsent(acc, cands)[i] !in AppendAbsent(acc, cands)[..i]
    decreases |cands|
  {
    if cands != [] {
      var grown := AppendAbsent(acc, cands[..|cands| - 1]);
      var c := cands[|cands| - 1];
      AppendAbsentAddsOnlyNew(acc, cands[..|cands| - 1]);
      if c !in grown {
        forall i | |acc| <= i < |grown| + 1
          ensures (grown + [c])[i] !in (grown + [c])[..i]
        {
          if i < |grown| {
            assert (grown + [c])[..i] == grown[..i];
          } else {
            assert (grown + [c])[..i] == grown;
          }
        }
      }
    }
  }

  /** The independent reading of the append: the candidates that are neither already
      in `acc` nor an earlier candidate, i.e. each new name at its first occurrence. */
  function NewInOrder(acc: seq<string>, cands: seq<string>): seq<string>
    decreases |cands|
  {
    if cands == [] then []
    else
      var earlier := cands[..|cands| - 1];
      var c := cands[|cands| - 1];
      NewInOrder(acc, earlier) + (if c in acc || c in earlier then [] else [c])
  }

  /** The guarded append keeps `acc` and adds each new candidate once, at its first
      occurrence, in candidate order. */
  lemma {:induction false} AppendAbsentIsFirstOccurrences(acc: seq<string>, cands: seq<string>)
    ensures AppendAbsent(acc, cands) == acc + NewInOrder(acc, cands)
    decreases |cands|
  {
    if cands != [] {
      AppendAbsentIsFirstOccurrences(acc, cands[..|cands| - 1]);
      AppendAbsentMembers(acc, cands[..|cands| - 1]);
    }
  }

  /** One more candidate: it is appended exactly when it is not in the list so far. */
  lemma AppendAbsentStep(acc: seq<string>, cands: seq<string>, c: string)
    ensures AppendAbsent(acc, cands + [c]) ==
            var grown := AppendAbsent(acc, cands); if c in grown then grown else grown + [c]
  {
    assert (cands + [c])[..|cands|] == cands;
  }

  /** One more missing field: its row of candidates comes after the earlier ones. */
  lemma CandidatesStep(missing: seq<string>, i: nat, available: seq<string>)
    requires i < |missing|
    ensures Candidates(missing[..i + 1], available) ==
            Candidates(missing[..i], available) + RowCandidates(missing[i], available)
  {
    assert missing[..i + 1][..i] == missing[..i];
  }

  /** One more available field: it joins the row when it is related to the missing field. */
  lemma RowCandidatesStep(missingField: string, available: seq<string>, j: nat)
    requires j < |available|
    ensures RowCandidates(missingField, available[..j + 1]) ==
            RowCandidates(missingField, available[..j]) +
            (if Related(missingField, available[j]) then [available[j]] else [])
  {
    assert available[..j + 1][..j] == available[..j];
  }

  /** The nested fuzzy-match loops: for each missing field, for each available field,
      a related available field is appended unless already kept. */
  method AppendFuzzyMatches(fieldsToKeep: seq<string>, missing: seq<string>, available: seq<string>)
    returns (r: seq<string>)
    ensures r == AppendAbsent(fieldsToKeep, Candidates(missing, available))
  {
    r := fieldsToKeep;
    for i := 0 to |missing|
      invariant r == AppendAbsent(fieldsToKeep, Candidates(missing[..i], available))
    {
      var missingField := missing[i];
      ghost var done := Candidates(missing[..i], available);
      assert done + RowCandidates(missingField, available[..0]) == done;
      for j := 0 to |available|
        invariant r == AppendAbsent(fieldsToKeep, done + RowCandidates(missingField, available[..j]))
      {
        var availableField := available[j];
        ghost var before := done + RowCandidates(missingField, available[..j]);
        RowCandidatesStep(missingField, available, j);
        if Related(missingField, availableField) {
          assert done + RowCandidates(missingField, available[..j + 1]) == before + [availableField];
          AppendAbsentStep(fieldsToKeep, before, availableField);
          if availableField !in r {
            r := r + [availableField];
          }
        } else {
          assert done + RowCandidates(missingField, available[..j + 1]) == before;
        }
      }
      assert available[..|available|] == available;
      CandidatesStep(missing, i, available);
    }
    assert missing[..|missing|] == missing;
  }

  // ----- The whole reconciliation -----

  /** The keep-list before fuzzy matching: the geometry column, then the exact matches. */
  function KeepPrefix(columns: seq<string>, keepFields: seq<string>): seq<string>
  {
    [GeometryColumn] + ExactMatches(keepFields, columns)
  }

  /** The final keep-list for a non-empty request. */
  function FinalKeepList(columns: seq<string>, keepFields: seq<string>): seq<string>
  {
    AppendAbsent(KeepPrefix(columns, keepFields),
                 Candidates(MissingFields(keepFields, columns), columns))
  }

  /** Either no filtering (empty request), or the columns to keep and the missing fields. */
  datatype Reconciliation =
    | NoFilter
    | Filter(keep: seq<string>, missing: seq<string>)

  function Reconciled(columns: seq<string>, keepFields: seq<string>): Reconciliation
  {
    if keepFields == [] then NoFilter
    else Filter(FinalKeepList(columns, keepFields), MissingFields(keepFields, columns))
  }

  /** The reconciliation step of the conversion: no filtering for an empty request;
      otherwise the geometry column and the exact matches, extended by fuzzy matches
      when some requested field is missing. */
  method Reconcile(columns: seq<string>, keepFields: seq<string>) returns (rec: Reconciliation)
    ensures rec.NoFilter? <==> keepFields == []
    ensures rec == Reconciled(columns, keepFields)
  {
    if keepFields == [] {
      return NoFilter;
    }
    var fieldsToKeep := [GeometryColumn] + ExactMatches(keepFields, columns);
    var missing := MissingFields(keepFields, columns);
    if missing != [] {
      fieldsToKeep := AppendFuzzyMatches(fieldsToKeep, missing, columns);
    }
    rec := Filter(fieldsToKeep, missing);
  }

  // ----- What the final keep-list is -----

  /** The keep-list is the geometry column, the exact matches in requested order, and
      then each fuzzy match once, at its first occurrence in missing-field-major,
      column-minor order. */
  lemma KeepListShape(columns: seq<string>, keepFields: seq<string>)
    ensures FinalKeepList(columns, keepFields) ==
            [GeometryColumn] + ExactMatches(keepFields, columns) +
            NewInOrder(KeepPrefix(columns, keepFields),
                       Candidates(MissingFields(keepFields, columns), columns))
  {
    AppendAbsentIsFirstOccurrences(KeepPrefix(columns, keepFields),
                                   Candidates(MissingFields(keepFields, columns), columns));
  }

  /** Fuzzy matching never disturbs the geometry column and the exact matches, and every
      name it appends is new: not among them, and not appended before. */
  lemma KeepListExtendsPrefix(columns: seq<string>, keepFields: seq<string>)
    ensures var prefix, r := KeepPrefix(columns, keepFields), FinalKeepList(columns, keepFields);
            |r| >= |prefix| && r[..|prefix|] == prefix &&
            forall i :: |prefix| <= i < |r| ==> r[i] !in r[..i]
  {
    var prefix, cands := KeepPrefix(columns, keepFields), Candidates(MissingFields(keepFields, columns), columns);
    AppendAbsentKeepsPrefix(prefix, cands);
    AppendAbsentAddsOnlyNew(prefix, cands);
  }

  /** For every missing field and every column (the geometry column included) where one
      name contains the other, that column is kept. */
  lemma KeepListCoversFuzzyMatches(columns: seq<string>, keepFields: seq<string>)
    ensures forall m, a :: m in MissingFields(keepFields, columns) && a in columns &&
                           (IsSubstring(m, a) || IsSubstring(a, m))
                           ==> a in FinalKeepList(columns, keepFields)
  {
    var missing := MissingFields(keepFields, columns);
    CandidatesMembers(missing, columns);
    AppendAbsentMembers(KeepPrefix(columns, keepFields), Candidates(missing, columns));
    forall m, a | m in missing && a in columns && (IsSubstring(m, a) || IsSubstring(a, m))
      ensures a in FinalKeepList(columns, keepFields)
    {
      ContainsIsSubstring(a, m);
      ContainsIsSubstring(m, a);
      assert a in Candidates(missing, columns);
    }
  }

  /** Every kept name is the geometry column or a real column. */
  lemma KeepListEntriesAreColumns(columns: seq<string>, keepFields: seq<string>)
    ensures forall x :: x in FinalKeepList(columns, keepFields) ==> x == GeometryColumn || x in columns
  {
    var missing := MissingFields(keepFields, columns);
    CandidatesMembers(missing, columns);
    AppendAbsentMembers(KeepPrefix(columns, keepFields), Candidates(missing, columns));
  }

  /** A name past the exact matches is a column that contains, or is contained in, some
      missing field. */
  lemma FuzzyEntriesAreRelated(columns: seq<string>, keepFields: seq<string>)
    ensures var prefix, r := KeepPrefix(columns, keepFields), FinalKeepList(columns, keepFields);
            forall i :: |prefix| <= i < |r| ==>
              r[i] in columns &&
              exists m :: m in MissingFields(keepFields, columns) && (IsSubstring(m, r[i]) || IsSubstring(r[i], m))
  {
    var prefix, r := KeepPrefix(columns, keepFields), FinalKeepList(columns, keepFields);
    var missing := MissingFields(keepFields, columns);
    var cands := Candidates(missing, columns);
    AppendAbsentKeepsPrefix(prefix, cands);
    AppendAbsentMembers(prefix, cands);
    AppendAbsentAddsOnlyNew(prefix, cands);
    CandidatesMembers(missing, columns);
    forall i | |prefix| <= i < |r|
      ensures r[i] in columns
      ensures exists m :: m in missing && (IsSubstring(m, r[i]) || IsSubstring(r[i], m))
    {
      assert r[i] !in r[..|prefix|] by { assert r[..|prefix|] == r[..i][..|prefix|]; }
      assert r[i] in Candidates(missing, columns);
      var m :| m in missing && Related(m, r[i]);
      ContainsIsSubstring(r[i], m);
      ContainsIsSubstring(m, r[i]);
    }
  }

  /** Without missing fields there is no fuzzy matching: the keep-list is the geometry
      column followed by the exact matches. */
  lemma NoMissingMeansNoFuzzyMatches(columns: seq<string>, keepFields: seq<string>)
    requires MissingFields(keepFields, columns) == []
    ensures FinalKeepList(columns, keepFields) == [GeometryColumn] + keepFields
  {
    ExactAndMissingPartition(keepFields, columns);
    SubsequenceWithAllElements(ExactMatches(keepFields, columns), keepFields);
    assert Candidates([], columns) == [];
  }

  /** A subsequence with as many elements as the whole is the whole. */
  lemma {:induction false} SubsequenceWithAllElements<T>(sub: seq<T>, s: seq<T>)
    requires Subsequence(sub, s) && |sub| == |s|
    ensures sub == s
    decreases |s|
  {
    if sub != [] {
      SubsequenceNoLonger(sub, s[..|s| - 1]);
      SubsequenceWithAllElements(sub[..|sub| - 1], s[..|s| - 1]);
    }
  }

  /** A subsequence is never longer than the sequence it comes from. */
  lemma {:induction false} SubsequenceNoLonger<T>(sub: seq<T>, s: seq<T>)
    ensures Subsequence(sub, s) ==> |sub| <= |s|
    decreases |s|
  {
    if sub != [] && s != [] {
      SubsequenceNoLonger(sub[..|sub| - 1], s[..|s| - 1]);
      SubsequenceNoLonger(sub, s[..|s| - 1]);
    }
  }

  /** The keep-list has at most one entry for the geometry column, one per requested
      field and one per column. */
  lemma KeepListLength(columns: seq<string>, keepFields: seq<string>)
    ensures |FinalKeepList(columns, keepFields)| <= 1 + |keepFields| + |columns|
  {
    var prefix, r := KeepPrefix(columns, keepFields), FinalKeepList(columns, keepFields);
    ExactAndMissingPartition(keepFields, columns);
    SubsequenceNoLonger(ExactMatches(keepFields, columns), keepFields);
    KeepListExtendsPrefix(columns, keepFields);
    FuzzyEntriesAreRelated(columns, keepFields);
    SuffixDistinct(r, |prefix|);
    var added := r[|prefix|..];
    assert forall i :: 0 <= i < |added| ==> added[i] == r[|prefix| + i];
    DistinctNoLonger(added, columns);
    assert r == prefix + added;
  }

  /** The part of `r` past index `n`, where every element is new, is duplicate-free. */
  lemma SuffixDistinct(r: seq<string>, n: nat)
    requires n <= |r|
    requires forall i :: n <= i < |r| ==> r[i] !in r[..i]
    ensures forall i :: 0 <= i < |r| - n ==> r[n..][i] !in r[n..][..i]
  {
    forall i | 0 <= i < |r| - n ensures r[n..][i] !in r[n..][..i] {
      assert r[n..][..i] == r[n..n + i];
      assert r[..n + i] == r[..n] + r[n..n + i];
    }
  }

  /** A duplicate-free sequence drawn from `universe` is no longer than `universe`. */
  lemma DistinctNoLonger(s: seq<string>, universe: seq<string>)
    requires forall i :: 0 <= i < |s| ==> s[i] !in s[..i] && s[i] in universe
    ensures |s| <= |universe|
  {
    DistinctCardinality(s);
    SetCardinalityAtMostLength(universe);
    assert (set x | x in s) <= (set x | x in universe);
    SubsetCardinality(set x | x in s, set x | x in universe);
  }

  lemma {:induction false} DistinctCardinality(s: seq<string>)
    requires forall i :: 0 <= i < |s| ==> s[i] !in s[..i]
    ensures |set x | x in s| == |s|
    decreases |s|
  {
    if s != [] {
      var earlier := s[..|s| - 1];
      forall i | 0 <= i < |earlier| ensures earlier[i] !in earlier[..i] {
        assert earlier[..i] == s[..i];
      }
      DistinctCardinality(earlier);
      assert (set x | x in s) == (set x | x in earlier) + {s[|s| - 1]} by {
        assert s == earlier + [s[|s| - 1]];
      }
    }
  }

  lemma {:induction false} SetCardinalityAtMostLength(s: seq<string>)
    ensures |set x | x in s| <= |s|
    decreases |s|
  {
    if s != [] {
      var earlier := s[..|s| - 1];
      SetCardinalityAtMostLength(earlier);
      assert (set x | x in s) == (set x | x in earlier) + {s[|s| - 1]} by {
        assert s == earlier + [s[|s| - 1]];
      }
    }
  }

  lemma {:induction false} SubsetCardinality(a: set<string>, b: set<string>)
    requires a <= b
    ensures |a| <= |b|
    decreases |a|
  {
    if a != {} {
      var x :| x in a;
      SubsetCardinality(a - {x}, b - {x});
    }
  }

  /** Python's `in` with an empty string: an empty requested name matches every column,
      so every column is kept. */
  lemma EmptyNameMatchesEveryColumn(columns: seq<string>, keepFields: seq<string>)
    requires "" in keepFields && "" !in columns
    ensures forall a :: a in columns ==> a in FinalKeepList(columns, keepFields)
  {
    forall a | a in columns ensures a in FinalKeepList(columns, keepFields) {
      assert OccursAt("", a, 0);
      KeepListCoversFuzzyMatches(columns, keepFields);
    }
  }

  /** A name whose first character does not occur in `hay` is not found in it. */
  lemma {:induction false} FirstCharAbsent(hay: string, needle: string)
    requires needle != [] && needle[0] !in hay
    ensures !Contains(hay, needle)
    decreases |hay|
  {
    if |needle| <= |hay| {
      assert hay[..|needle|][0] == hay[0];
      FirstCharAbsent(hay[1..], needle);
    }
  }

  /** The column names of the land-price layers. */
  const LandPriceColumns: seq<string> := ["一级用途", "土地级别", "面积", "地面地价", GeometryColumn]

  /** Two names each of whose first character is absent from the other are unrelated. */
  lemma FirstCharsAbsent(m: string, a: string)
    requires m != [] && a != [] && m[0] !in a && a[0] !in m
    ensures !Related(m, a)
  {
    FirstCharAbsent(a, m);
    FirstCharAbsent(m, a);
  }

  /** `土地级别` shares the character `地` with `地价` but neither contains the other. */
  lemma LandGradeUnrelated()
    ensures !Related("地价", "土地级别")
  {
    var m, a := "地价", "土地级别";
    assert a[..2] != m by { assert a[..2][0] != m[0]; }
    assert a[1..][..2] != m by { assert a[1..][..2][1] != m[1]; }
    FirstCharAbsent(a[1..][1..], m);
    assert !Contains(m, a);
  }

  /** `地面地价` ends with `地价`. */
  lemma LandPriceContainsPrice()
    ensures Related("地价", "地面地价")
  {
    var m, a := "地价", "地面地价";
    assert a[..2] != m by { assert a[..2][1] != m[1]; }
    assert a[1..][..2] != m by { assert a[1..][..2][0] != m[0]; }
    assert a[1..][1..] == m;
  }

  /** Of the land-price columns only `地面地价` contains `地价`, and none is contained in it. */
  lemma TruncatedNameRelations()
    ensures !Related("地价", "一级用途") && !Related("地价", "土地级别") && !Related("地价", "面积")
    ensures !Related("地价", GeometryColumn) && Related("地价", "地面地价")
  {
    FirstCharsAbsent("地价", "一级用途");
    FirstCharsAbsent("地价", "面积");
    FirstCharsAbsent("地价", GeometryColumn);
    LandGradeUnrelated();
    LandPriceContainsPrice();
  }

  /** So the only fuzzy candidate for `地价` is `地面地价`. */
  lemma TruncatedNameCandidates()
    ensures RowCandidates("地价", LandPriceColumns) == ["地面地价"]
  {
    TruncatedNameRelations();
    OnlyFourthRelated("地价", LandPriceColumns);
  }

  /** A five-column row of candidates where only the fourth column is related. */
  lemma OnlyFourthRelated(m: string, columns: seq<string>)
    requires |columns| == 5
    requires forall j :: 0 <= j < 5 ==> (Related(m, columns[j]) <==> j == 3)
    ensures RowCandidates(m, columns) == [columns[3]]
  {
    assert RowCandidates(m, columns[..0]) == [];
    RowCandidatesStep(m, columns, 0);
    RowCandidatesStep(m, columns, 1);
    RowCandidatesStep(m, columns, 2);
    RowCandidatesStep(m, columns, 3);
    RowCandidatesStep(m, columns, 4);
    assert columns[..5] == columns;
  }

  /** A single requested name that is not a column, with exactly one related column:
      the keep-list is the geometry column and that column. */
  lemma SingleMissingFieldRecovered(m: string, columns: seq<string>, related: string)
    requires m !in columns && related != GeometryColumn
    requires RowCandidates(m, columns) == [related]
    ensures MissingFields([m], columns) == [m]
    ensures FinalKeepList(columns, [m]) == [GeometryColumn, related]
  {
    assert [m][..0] == [];
    assert ExactMatches([m], columns) == [];
    assert KeepPrefix(columns, [m]) == [GeometryColumn];
    assert MissingFields([m], columns) == [m];
    assert Candidates([m], columns) == Candidates([], columns) + RowCandidates(m, columns);
    assert Candidates([m], columns) == [related];
    assert [related][..0] == [];
    assert AppendAbsent([GeometryColumn], []) == [GeometryColumn];
    assert related !in [GeometryColumn];
  }

  /** A truncated request: `地价` is not a column, but `地面地价` contains it, so it is
      reported missing and `地面地价` is kept in its place. */
  lemma TruncatedNameIsRecovered()
    ensures MissingFields(["地价"], LandPriceColumns) == ["地价"]
    ensures FinalKeepList(LandPriceColumns, ["地价"]) == [GeometryColumn, "地面地价"]
  {
    TruncatedNameCandidates();
    SingleMissingFieldRecovered("地价", LandPriceColumns, "地面地价");
  }

  // ----- Selecting the kept columns -----

  /** The row's attribute values restricted to the kept names. */
  function Restrict(properties: map<string, Json>, keep: seq<string>): map<string, Json>
  {
    map k | k in properties && k in keep :: properties[k]
  }

  /** `gdf[fields_to_keep]`: fails (a missing key) unless every name is a column;
      otherwise the columns become exactly the keep-list and each row keeps its
      geometry and the values of the kept attributes. */
  function Project(ds: Dataset, keep: seq<string>): (r: Option<Dataset>)
    ensures r.Some? <==> forall k :: k in keep ==> k in ds.columns
    ensures r.Some? ==> r.value.columns == keep && r.value.crs == ds.crs &&
                        |r.value.features| == |ds.features| &&
                        forall i :: 0 <= i < |ds.features| ==>
                          r.value.features[i].geometry == ds.features[i].geometry &&
                          r.value.features[i].properties.Keys == ds.features[i].properties.Keys * (set k | k in keep) &&
                          forall k :: k in r.value.features[i].properties ==>
                            r.value.features[i].properties[k] == ds.features[i].properties[k]
  {
    if forall k :: k in keep ==> k in ds.columns then
      Some(ds.(columns := keep,
               features := seq(|ds.features|, i requires 0 <= i < |ds.features| =>
                                 ds.features[i].(properties := Restrict(ds.features[i].properties, keep)))))
    else None
  }

  /** The reconciliation applied to a dataset. */
  function Apply(ds: Dataset, rec: Reconciliation): Option<Dataset>
  {
    match rec
    case NoFilter => Some(ds)
    case Filter(keep, _) => Project(ds, keep)
  }

  /** An empty request filters nothing: the dataset keeps all its columns. */
  lemma EmptyRequestKeepsAllColumns(ds: Dataset)
    ensures Apply(ds, Reconciled(ds.columns, [])) == Some(ds)
  {
  }

  /** Selecting names that are all columns, the geometry column among them, from a
      well-formed dataset gives a well-formed dataset whose attribute columns are the
      selected names other than the geometry column. */
  lemma ProjectKeepsWellFormed(ds: Dataset, keep: seq<string>)
    requires WellFormed(ds)
    requires GeometryColumn in keep && forall k :: k in keep ==> k in ds.columns
    ensures Project(ds, keep).Some? && WellFormed(Project(ds, keep).value)
  {
    var r := Project(ds, keep).value;
    forall i | 0 <= i < |r.features|
      ensures r.features[i].properties.Keys == AttributeNames(keep)
    {
      assert ds.features[i].properties.Keys == AttributeNames(ds.columns);
    }
  }

  /** On a well-formed dataset the reconciled keep-list can always be selected (every
      kept name is a column), and the result is again well formed. */
  lemma ReconciledSelectionIsWellFormed(ds: Dataset, keepFields: seq<string>)
    requires WellFormed(ds)
    ensures Apply(ds, Reconciled(ds.columns, keepFields)).Some?
    ensures WellFormed(Apply(ds, Reconciled(ds.columns, keepFields)).value)
  {
    if keepFields != [] {
      var keep := FinalKeepList(ds.columns, keepFields);
      KeepListSelectable(ds.columns, keepFields);
      ProjectKeepsWellFormed(ds, keep);
    }
  }

  /** The keep-list holds the geometry column, and otherwise only columns. */
  lemma KeepListSelectable(columns: seq<string>, keepFields: seq<string>)
    requires GeometryColumn in columns
    ensures GeometryColumn in FinalKeepList(columns, keepFields)
    ensures forall k :: k in FinalKeepList(columns, keepFields) ==> k in columns
  {
    KeepListEntriesAreColumns(columns, keepFields);
    KeepListExtendsPrefix(columns, keepFields);
    assert FinalKeepList(columns, keepFields)[0] == GeometryColumn;
  }
}
