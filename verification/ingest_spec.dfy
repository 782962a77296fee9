/**
 An independent description of what `scrape_students_from_csv` produces, row by row, and the
 theorems that the row loop and the renumbering meet it: every row has a key, the students are
 the distinct keys in order of first appearance, each student keeps the name and email of its
 first row and the first age any of its rows gave, and every grade value of every row becomes
 exactly one grade pointing at the student of its row.
 */
module IngestSpec {
  import opened Options
  import opened Numerals
  import opened Ordered
  import opened CsvIngest

  /** The key each row is filed under: the placeholder number is one more than the number of
      distinct keys of the rows before it. */
  function Keys(infos: seq<RowInfo>): (ks: seq<Key>)
    ensures |ks| == |infos|
    decreases |infos|
  {
    if infos == [] then
      []
    else
      var p := Keys(infos[..|infos| - 1]);
      p + [RowKey(infos[|infos| - 1].fields, |Distinct(p)|)]
  }

  /** Appending a row appends its key. */
  lemma {:induction false} KeysSnoc(infos: seq<RowInfo>)
    requires infos != []
    ensures var p := Keys(infos[..|infos| - 1]);
            Keys(infos) == p + [RowKey(infos[|infos| - 1].fields, |Distinct(p)|)]
  {
  }

  /** The keys of a prefix of the rows are a prefix of the keys. */
  lemma {:induction false} KeysPrefix(infos: seq<RowInfo>, n: nat)
    requires n <= |infos|
    ensures Keys(infos[..n]) == Keys(infos)[..n]
    decreases |infos|
  {
    if n < |infos| {
      var m := |infos| - 1;
      assert infos[..m][..n] == infos[..n];
      KeysPrefix(infos[..m], n);
    } else {
      assert infos[..n] == infos;
    }
  }

  /** Row `j` is filed under the key its cells give when the rows before it hold
      `|Distinct(ks[..j])|` students. */
  lemma {:induction false} KeysAt(infos: seq<RowInfo>, j: nat)
    requires j < |infos|
    ensures Keys(infos)[j] == RowKey(infos[j].fields, |Distinct(Keys(infos)[..j])|)
  {
    var a := infos[..j + 1];
    KeysPrefix(infos, j + 1);
    KeysPrefix(infos, j);
    assert a[..|a| - 1] == infos[..j];
    KeysSnoc(a);
    assert Keys(infos)[j] == Keys(a)[j];
  }

  /** A key sequence that follows the rows' keys row by row agrees with `Keys` on every
      prefix. */
  lemma {:induction false} KeysUniquePrefix(infos: seq<RowInfo>, ks: seq<Key>, n: nat)
    requires |ks| == |infos| && n <= |infos|
    requires forall j :: 0 <= j < |infos| ==> ks[j] == RowKey(infos[j].fields, |Distinct(ks[..j])|)
    ensures ks[..n] == Keys(infos)[..n]
  {
    if n > 0 {
      var keys := Keys(infos);
      KeysUniquePrefix(infos, ks, n - 1);
      KeysAt(infos, n - 1);
      assert ks[n - 1] == keys[n - 1];
      PrefixSnoc(ks, n);
      PrefixSnoc(keys, n);
    }
  }

  /** The key sequence of a row sequence is determined row by row. */
  lemma {:induction false} KeysUnique(infos: seq<RowInfo>, ks: seq<Key>)
    requires |ks| == |infos|
    requires forall j :: 0 <= j < |infos| ==> ks[j] == RowKey(infos[j].fields, |Distinct(ks[..j])|)
    ensures ks == Keys(infos)
  {
    KeysUniquePrefix(infos, ks, |infos|);
    assert ks == ks[..|infos|] && Keys(infos) == Keys(infos)[..|infos|];
  }

  /** The age of the first row filed under `k` that gave one. */
  function FirstAge(infos: seq<RowInfo>, ks: seq<Key>, k: Key): (r: Option<int>)
    requires |ks| == |infos|
    decreases |infos|
  {
    if infos == [] then
      None
    else if ks[0] == k && infos[0].age.Some? then
      infos[0].age
    else
      FirstAge(infos[1..], ks[1..], k)
  }

  /** `FirstAge` is the age of the first row filed under `k` that has one, and `None` exactly
      when no row filed under `k` has one. */
  lemma {:induction false} FirstAgeMeaning(infos: seq<RowInfo>, ks: seq<Key>, k: Key)
    requires |ks| == |infos|
    ensures var r := FirstAge(infos, ks, k);
            && (r.None? <==> forall j :: 0 <= j < |infos| && ks[j] == k ==> infos[j].age.None?)
            && (r.Some? ==> exists j :: 0 <= j < |infos| && ks[j] == k && infos[j].age == r
                                      && forall j' :: 0 <= j' < j && ks[j'] == k ==> infos[j'].age.None?)
    decreases |infos|
  {
    if infos != [] && !(ks[0] == k && infos[0].age.Some?) {
      FirstAgeMeaning(infos[1..], ks[1..], k);
      var r := FirstAge(infos, ks, k);
      assert forall j :: 1 <= j < |infos| ==> infos[j] == infos[1..][j - 1] && ks[j] == ks[1..][j - 1];
      if r.Some? {
        var j1 :| 0 <= j1 < |infos| - 1 && ks[1..][j1] == k && infos[1..][j1].age == r
                  && forall j' :: 0 <= j' < j1 && ks[1..][j'] == k ==> infos[1..][j'].age.None?;
        assert ks[j1 + 1] == k && infos[j1 + 1].age == r;
      }
    }
  }

  /** No row filed under `k`, no age. */
  lemma {:induction false} FirstAgeAbsent(infos: seq<RowInfo>, ks: seq<Key>, k: Key)
    requires |ks| == |infos| && k !in ks
    ensures FirstAge(infos, ks, k) == None
    decreases |infos|
  {
    if infos != [] {
      FirstAgeAbsent(infos[1..], ks[1..], k);
    }
  }

  /** A row appended at the end changes the first age of its own key only, and only when no
      earlier row of that key gave one. */
  lemma {:induction false} FirstAgeSnoc(infos: seq<RowInfo>, ks: seq<Key>, x: RowInfo, kx: Key, k: Key)
    requires |ks| == |infos|
    ensures FirstAge(infos + [x], ks + [kx], k) ==
              if FirstAge(infos, ks, k).Some? || kx != k then FirstAge(infos, ks, k) else x.age
    decreases |infos|
  {
    if infos != [] {
      assert (infos + [x])[1..] == infos[1..] + [x];
      assert (ks + [kx])[1..] == ks[1..] + [kx];
      FirstAgeSnoc(infos[1..], ks[1..], x, kx, k);
    }
  }

  /** The grade values of the rows, in row order, each with the index of its row. */
  function Sources(infos: seq<RowInfo>): (src: seq<(nat, Option<string>)>)
    ensures forall i :: 0 <= i < |src| ==> src[i].0 < |infos|
    ensures forall i, i' :: 0 <= i < i' < |src| ==> src[i].0 <= src[i'].0
    decreases |infos|
  {
    if infos == [] then
      []
    else
      var n := |infos| - 1;
      var s := infos[n].scores;
      Sources(infos[..n]) + seq(|s|, i requires 0 <= i < |s| => (n, s[i]))
  }

  /** The row loop keeps one key per distinct row key, in order of first appearance. */
  lemma {:induction false} CollectOrder(infos: seq<RowInfo>)
    ensures Collect(infos).order == Distinct(Keys(infos))
    decreases |infos|
  {
    if infos != [] {
      var n := |infos| - 1;
      var p := infos[..n];
      CollectOrder(p);
      var prev := Collect(p);
      var kp := Keys(p);
      var key := RowKey(infos[n].fields, |prev.order|);
      StepOrder(prev, infos[n]);
      KeysSnoc(infos);
      DistinctSnoc(kp, key);
      DistinctMembers(kp);
    }
  }

  /** The entry the row loop keeps for each key: the name and email of the key's first row and
      the first age its rows gave. */
  ghost predicate EntriesMatch(infos: seq<RowInfo>, ks: seq<Key>, acc: Acc)
    requires |ks| == |infos|
  {
    forall k :: k in acc.entries ==>
      k in ks && acc.entries[k] == Entry(infos[FirstIndex(ks, k)].fields.name, k.email, FirstAge(infos, ks, k))
  }

  /** One key's entry after one more row, given the entries after the rows `p` before it, which
      were filed under the keys `kp`, and the row `x` filed under `key`. */
  lemma {:induction false} EntryStep(p: seq<RowInfo>, kp: seq<Key>, prev: Acc, x: RowInfo, key: Key,
                                     e: map<Key, Entry>, k: Key)
    requires |kp| == |p| && key.email == x.fields.email
    requires forall k' :: k' in prev.entries <==> k' in kp
    requires EntriesMatch(p, kp, prev)
    requires EntriesStepped(prev.entries, e, key, x)
    requires k in e
    ensures k in kp + [key]
    ensures e[k] == Entry((p + [x])[FirstIndex(kp + [key], k)].fields.name, k.email, FirstAge(p + [x], kp + [key], k))
  {
    var ks := kp + [key];
    FirstAgeSnoc(p, kp, x, key, k);
    if k in prev.entries {
      FirstIndexSnoc(kp, key, k);
      assert (p + [x])[FirstIndex(ks, k)] == p[FirstIndex(kp, k)];
    } else {
      assert k == key && k !in kp;
      assert ks[|p|] == k;
      assert FirstIndex(ks, k) == |p|;
      FirstAgeAbsent(p, kp, k);
    }
  }

  /** One key's entry after one more row. */
  lemma {:induction false} EntryAfterRow(p: seq<RowInfo>, x: RowInfo, k: Key)
    requires EntriesMatch(p, Keys(p), Collect(p))
    requires Collect(p).order == Distinct(Keys(p))
    requires k in Collect(p + [x]).entries
    ensures k in Keys(p + [x])
    ensures Collect(p + [x]).entries[k]
         == Entry((p + [x])[FirstIndex(Keys(p + [x]), k)].fields.name, k.email, FirstAge(p + [x], Keys(p + [x]), k))
  {
    var infos := p + [x];
    assert infos[..|infos| - 1] == p;
    var prev := Collect(p);
    CollectSnoc(infos);
    StepEntries(prev, x);
    KeysSnoc(infos);
    DistinctMembers(Keys(p));
    EntryStep(p, Keys(p), prev, x, RowKey(x.fields, |prev.order|), Collect(infos).entries, k);
  }

  /** The entries after one more row, from those after the rows before it. */
  lemma {:induction false} CollectEntriesSnoc(p: seq<RowInfo>, x: RowInfo)
    requires EntriesMatch(p, Keys(p), Collect(p))
    requires Collect(p).order == Distinct(Keys(p))
    ensures EntriesMatch(p + [x], Keys(p + [x]), Collect(p + [x]))
  {
    forall k | k in Collect(p + [x]).entries
      ensures k in Keys(p + [x])
      ensures Collect(p + [x]).entries[k]
           == Entry((p + [x])[FirstIndex(Keys(p + [x]), k)].fields.name, k.email, FirstAge(p + [x], Keys(p + [x]), k))
    {
      EntryAfterRow(p, x, k);
    }
  }

  /** The entries of the row loop: each key's entry holds the name and email of its first row
      and the first age its rows gave. */
  lemma {:induction false} CollectEntries(infos: seq<RowInfo>)
    ensures EntriesMatch(infos, Keys(infos), Collect(infos))
    decreases |infos|
  {
    if infos != [] {
      var p := infos[..|infos| - 1];
      SplitLast(infos);
      CollectEntries(p);
      CollectOrder(p);
      CollectEntriesSnoc(p, infos[|infos| - 1]);
    }
  }


  /** Appending a row appends its grade values. */
  lemma {:induction false} SourcesSnoc(p: seq<RowInfo>, x: RowInfo)
    ensures |Sources(p + [x])| == |Sources(p)| + |x.scores|
    ensures forall i :: 0 <= i < |Sources(p)| ==> Sources(p + [x])[i] == Sources(p)[i]
    ensures forall i :: 0 <= i < |x.scores| ==> Sources(p + [x])[|Sources(p)| + i] == (|p|, x.scores[i])
  {
    assert (p + [x])[..|p|] == p;
  }


  /** Pending grade `i` carries value `i` of `src`, filed under the key of that value's row. */
  ghost predicate PendingMatch(pend: seq<Pending>, ks: seq<Key>, src: seq<(nat, Option<string>)>) {
    && |pend| == |src|
    && forall i :: 0 <= i < |src| ==> src[i].0 < |ks| && pend[i] == Pending(ks[src[i].0], src[i].1)
  }

  /** The pending grades of one more row line up with its grade values, given that those of
      the rows before it do. */
  lemma {:induction false} PendingStep(pend: seq<Pending>, prev: seq<Pending>, ks: seq<Key>, kp: seq<Key>, key: Key,
                    src: seq<(nat, Option<string>)>, sp: seq<(nat, Option<string>)>,
                    scores: seq<Option<string>>)
    requires ks == kp + [key]
    requires PendingMatch(prev, kp, sp)
    requires |pend| == |prev| + |scores|
    requires forall i :: 0 <= i < |prev| ==> pend[i] == prev[i]
    requires forall i :: 0 <= i < |scores| ==> pend[|prev| + i] == Pending(key, scores[i])
    requires |src| == |sp| + |scores|
    requires forall i :: 0 <= i < |sp| ==> src[i] == sp[i]
    requires forall i :: 0 <= i < |scores| ==> src[|sp| + i] == (|kp|, scores[i])
    ensures PendingMatch(pend, ks, src)
  {
    forall i | 0 <= i < |src| ensures src[i].0 < |ks| && pend[i] == Pending(ks[src[i].0], src[i].1) {
      if i >= |sp| {
        assert src[|sp| + (i - |sp|)] == (|kp|, scores[i - |sp|]);
        assert pend[|prev| + (i - |sp|)] == Pending(key, scores[i - |sp|]);
      }
    }
  }

  /** One more row: the pending grades of all rows from those of the rows before it. */
  lemma {:induction false} CollectPendingSnoc(p: seq<RowInfo>, x: RowInfo)
    requires PendingMatch(Collect(p).pending, Keys(p), Sources(p))
    ensures PendingMatch(Collect(p + [x]).pending, Keys(p + [x]), Sources(p + [x]))
  {
    var infos := p + [x];
    assert infos[..|infos| - 1] == p;
    CollectOrder(p);
    var prev := Collect(p);
    CollectSnoc(infos);
    StepPending(prev, x);
    KeysSnoc(infos);
    SourcesSnoc(p, x);
    PendingStep(Step(prev, x).pending, prev.pending, Keys(infos), Keys(p), RowKey(x.fields, |prev.order|),
                Sources(infos), Sources(p), x.scores);
  }

  /** The pending grades of the row loop: one per grade value, filed under its row's key. */
  lemma {:induction false} CollectPending(infos: seq<RowInfo>)
    ensures PendingMatch(Collect(infos).pending, Keys(infos), Sources(infos))
    decreases |infos|
  {
    if infos != [] {
      var p := infos[..|infos| - 1];
      SplitLast(infos);
      CollectPending(p);
      CollectPendingSnoc(p, infos[|infos| - 1]);
    }
  }

  /** The students are the distinct row keys in order of first appearance, numbered from 1,
      each with the name and email of its first row and the first age its rows gave. */
  ghost predicate StudentsMatch(infos: seq<RowInfo>, ks: seq<Key>, students: seq<Student>)
    requires |ks| == |infos|
  {
    && |students| == |Distinct(ks)|
    && forall i :: 0 <= i < |students| ==>
         var k := Distinct(ks)[i];
         students[i] == Student(i + 1, infos[FirstIndex(ks, k)].fields.name, k.email, FirstAge(infos, ks, k))
  }

  /** One grade per grade value, in order, with the score of that value and the number of the
      student its row was filed under. */
  ghost predicate GradesMatch(ks: seq<Key>, src: seq<(nat, Option<string>)>, out: Output)
    requires forall i :: 0 <= i < |src| ==> src[i].0 < |ks|
  {
    && |out.grades| == |src|
    && forall i :: 0 <= i < |src| ==>
         && 1 <= out.grades[i].studentId <= |Distinct(ks)|
         && Distinct(ks)[out.grades[i].studentId - 1] == ks[src[i].0]
         && out.grades[i].score == src[i].1
  }

  /** Numbering a loop state whose order and entries are those the rows describe. */
  lemma {:induction false} StudentsOf(acc: Acc, infos: seq<RowInfo>, ks: seq<Key>)
    requires Valid(acc) && |ks| == |infos|
    requires acc.order == Distinct(ks) && EntriesMatch(infos, ks, acc)
    ensures StudentsMatch(infos, ks, Renumber(acc).students)
  {
  }

  /** Remapping the pending grades of a loop state whose order and pending grades are those the
      rows describe. */
  lemma {:induction false} GradesOf(acc: Acc, ks: seq<Key>, src: seq<(nat, Option<string>)>)
    requires Valid(acc)
    requires acc.order == Distinct(ks)
    requires PendingMatch(acc.pending, ks, src)
    ensures GradesMatch(ks, src, Renumber(acc))
  {
    RenumberKeepsGrades(acc);
  }

  /** The students of the rows. */
  lemma {:induction false} RenumberStudents(infos: seq<RowInfo>)
    ensures StudentsMatch(infos, Keys(infos), Renumber(Collect(infos)).students)
  {
    CollectOrder(infos);
    CollectEntries(infos);
    StudentsOf(Collect(infos), infos, Keys(infos));
  }

  /** The grades of the rows. */
  lemma {:induction false} RenumberGrades(infos: seq<RowInfo>)
    ensures GradesMatch(Keys(infos), Sources(infos), Renumber(Collect(infos)))
  {
    CollectOrder(infos);
    CollectPending(infos);
    GradesOf(Collect(infos), Keys(infos), Sources(infos));
  }

  /** `scrape_students_from_csv` returns one student per distinct row key, numbered 1..N in
      order of first appearance, with the name and email of the key's first row and the first
      age its rows gave; so there are as many students as distinct keys. */
  lemma {:induction false} IngestStudents(rows: seq<Row>)
    ensures StudentsMatch(ReadRows(rows), Keys(ReadRows(rows)), Ingest(rows).students)
    ensures |Ingest(rows).students| == |set k | k in Keys(ReadRows(rows))|
  {
    RenumberStudents(ReadRows(rows));
    DistinctCard(Keys(ReadRows(rows)));
  }

  /** Earlier students come from earlier rows. */
  lemma {:induction false} IngestStudentOrder(rows: seq<Row>)
    ensures var ks := Keys(ReadRows(rows));
            && |Ingest(rows).students| == |Distinct(ks)|
            && forall i, i' :: 0 <= i < i' < |Ingest(rows).students| ==>
                 FirstIndex(ks, Distinct(ks)[i]) < FirstIndex(ks, Distinct(ks)[i'])
  {
    RenumberStudents(ReadRows(rows));
    DistinctFirstAppearance(Keys(ReadRows(rows)));
  }

  /** `scrape_students_from_csv` returns one grade per value of every row's grade cell, in row
      order, each pointing at the student whose key the row was filed under: the id check of
      line 87 never drops a grade. */
  lemma {:induction false} IngestGrades(rows: seq<Row>)
    ensures GradesMatch(Keys(ReadRows(rows)), Sources(ReadRows(rows)), Ingest(rows))
  {
    RenumberGrades(ReadRows(rows));
  }

  /** A name of the shape the placeholder scheme produces. */
  predicate LooksLikePlaceholder(name: string) {
    |name| >= 8 && name[..8] == "unknown_"
  }

  lemma {:induction false} PlaceholderShape(count: nat)
    ensures LooksLikePlaceholder(Placeholder(count))
  {
    assert Placeholder(count)[..8] == "unknown_";
  }

  /** Different student counts give different placeholders. */
  lemma {:induction false} PlaceholderInjective(a: nat, b: nat)
    requires Placeholder(a) == Placeholder(b)
    ensures a == b
  {
    assert NatString(a + 1) == Placeholder(a)[8..];
    assert NatString(b + 1) == Placeholder(b)[8..];
    DigitsValueOfNatString(a + 1);
    DigitsValueOfNatString(b + 1);
  }

  /** The step of `UnnamedRowIsNew` for one earlier row. */
  lemma {:induction false} EarlierRowDiffers(infos: seq<RowInfo>, j': nat, j: nat)
    requires j' < j < |infos| && infos[j].fields.name == ""
    requires forall i :: 0 <= i < j ==> !LooksLikePlaceholder(infos[i].fields.name)
    ensures Keys(infos)[j'] != Keys(infos)[j]
    decreases j, 0
  {
    var ks := Keys(infos);
    KeysAt(infos, j);
    KeysAt(infos, j');
    var c := |Distinct(ks[..j])|;
    if infos[j'].fields.name == "" {
      UnnamedRowIsNew(infos, j');
      DistinctGrowsPast(ks, j', j);
      if ks[j'] == ks[j] {
        PlaceholderInjective(|Distinct(ks[..j'])|, c);
      }
    } else {
      PlaceholderShape(c);
    }
  }

  /** An unnamed row opens a student of its own, unless an earlier row carries a real name of
      the placeholder shape: the placeholder number is one more than the number of students so
      far, so it differs from every earlier placeholder. */
  lemma {:induction false} UnnamedRowIsNew(infos: seq<RowInfo>, j: nat)
    requires j < |infos| && infos[j].fields.name == ""
    requires forall j' :: 0 <= j' < j ==> !LooksLikePlaceholder(infos[j'].fields.name)
    ensures Keys(infos)[j] !in Keys(infos)[..j]
    decreases j, 1
  {
    var ks := Keys(infos);
    forall j' | 0 <= j' < j ensures ks[j'] != ks[j] {
      EarlierRowDiffers(infos, j', j);
    }
  }

  /** A real name of the placeholder shape can capture a later unnamed row: a row named
      `unknown_2` followed by an unnamed row with the same (empty) email gives one student. */
  lemma {:induction false} PlaceholderCollision(age: Option<int>)
    ensures var named := RowInfo(Fields("unknown_2", "", "", ""), age, []);
            var unnamed := RowInfo(Fields("", "", "", ""), None, []);
            var ks := Keys([named, unnamed]);
            ks[0] == ks[1] && |Distinct(ks)| == 1
  {
    var named := RowInfo(Fields("unknown_2", "", "", ""), age, []);
    var unnamed := RowInfo(Fields("", "", "", ""), None, []);
    var infos := [named, unnamed];
    KeysAt(infos, 0);
    KeysAt(infos, 1);
    var ks := Keys(infos);
    assert ks[..1] == [ks[0]];
    assert Distinct(ks[..1]) == [ks[0]];
    assert NatString(2) == "2";
    assert ks[1] == Key("unknown_2", "");
    assert ks == [ks[0], ks[0]];
    DistinctSnoc([ks[0]], ks[0]);
  }
}
