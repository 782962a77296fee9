/**
 The in-memory part of `scrape_students_from_csv`: what it does with the rows once
 `csv.DictReader` has read them. Header names are normalised, header synonyms resolved, ages
 parsed leniently, students deduplicated by (name or placeholder, email), students numbered
 1..N in order of first appearance, and one grade emitted per value of each row's grade cell,
 pointing at the new student number.
 */
module CsvIngest {
  import opened Options
  import opened Text
  import opened Numerals
  import opened Ordered
  import ScoreParser
  import FieldSplitter

  /** One row as `row.items()` lists it: the dict `csv.DictReader` builds with
      `dict(zip(fieldnames, cells))`. The raw headers are therefore distinct and in the dict's
      key order: a header repeated in the file keeps the place of its first column and holds the
      cell of its last one. The cell is `None` where a short row has no value for that column. */
  type Row = seq<(string, Option<string>)>

  /** `k.strip().lower()` */
  function NormHeader(h: string): (r: string)
    ensures IsStripped(r) && NoUpper(r)
  {
    Lower(Strip(h))
  }

  /** Header matching ignores case and surrounding whitespace, and a header that is already
      stripped lower-case text is matched as it is. */
  lemma {:induction false} NormHeaderMeaning(w: string, h: string, w': string)
    requires AllSpace(w) && AllSpace(w')
    ensures NormHeader(w + h + w') == NormHeader(h)
    ensures NormHeader(Lower(h)) == NormHeader(h)
    ensures IsStripped(h) && NoUpper(h) ==> NormHeader(h) == h
  {
    assert w + h + w' == w + (h + w');
    StripSpacePrefix(w, h + w');
    StripSpaceSuffix(h, w');
    LowerStrip(h);
    if IsStripped(h) {
      StripStripped(h);
    }
  }

  /** `v.strip() if v is not None else ''` */
  function NormCell(v: Option<string>): (r: string)
    ensures IsStripped(r)
    ensures v.None? ==> r == ""
  {
    if v.None? then "" else Strip(v.value)
  }

  /** No later pair of `pairs` has the same key as pair `j`. */
  predicate IsLastKey(pairs: seq<(string, string)>, j: int)
    requires 0 <= j < |pairs|
  {
    forall j' :: j < j' < |pairs| ==> pairs[j'].0 != pairs[j].0
  }

  /** A dict built from key/value pairs in order: later pairs overwrite earlier ones. */
  function ToDict(pairs: seq<(string, string)>): (r: map<string, string>)
    decreases |pairs|
  {
    if pairs == [] then
      map[]
    else
      ToDict(pairs[..|pairs| - 1])[pairs[|pairs| - 1].0 := pairs[|pairs| - 1].1]
  }

  /** The dict has exactly the keys of the pairs, and each key holds the value of its last
      pair. */
  lemma {:induction false} ToDictMeaning(pairs: seq<(string, string)>)
    ensures forall h :: h in ToDict(pairs) <==> exists j :: 0 <= j < |pairs| && pairs[j].0 == h
    ensures forall j :: 0 <= j < |pairs| && IsLastKey(pairs, j) ==> ToDict(pairs)[pairs[j].0] == pairs[j].1
    decreases |pairs|
  {
    if pairs != [] {
      var n := |pairs| - 1;
      var p := pairs[..n];
      ToDictMeaning(p);
      var m, mp := ToDict(pairs), ToDict(p);
      forall h | h in m ensures exists j :: 0 <= j < |pairs| && pairs[j].0 == h {
        if h in mp {
          var j :| 0 <= j < |p| && p[j].0 == h;
          assert pairs[j].0 == h;
        } else {
          assert pairs[n].0 == h;
        }
      }
      forall h | exists j :: 0 <= j < |pairs| && pairs[j].0 == h ensures h in m {
        var j :| 0 <= j < |pairs| && pairs[j].0 == h;
        if j < n {
          assert p[j].0 == h;
        }
      }
      forall j | 0 <= j < |pairs| && IsLastKey(pairs, j) ensures m[pairs[j].0] == pairs[j].1 {
        if j < n {
          assert p[j] == pairs[j];
          assert IsLastKey(p, j) by {
            forall j' | j < j' < |p| ensures p[j'].0 != p[j].0 {
              assert p[j'] == pairs[j'];
            }
          }
          assert pairs[n].0 != pairs[j].0;
        }
      }
    }
  }

  /** The row with headers and cells normalised, column by column. */
  function NormPairs(row: Row): (pairs: seq<(string, string)>)
    ensures |pairs| == |row|
    ensures forall j :: 0 <= j < |row| ==> IsStripped(pairs[j].0) && NoUpper(pairs[j].0) && IsStripped(pairs[j].1)
    ensures forall j :: 0 <= j < |row| && row[j].1.None? ==> pairs[j].1 == ""
    ensures forall j :: 0 <= j < |row| ==> pairs[j].0 == NormHeader(row[j].0)
    ensures forall j :: 0 <= j < |row| && row[j].1.Some? ==> pairs[j].1 == Strip(row[j].1.value)
  {
    seq(|row|, j requires 0 <= j < |row| => (NormHeader(row[j].0), NormCell(row[j].1)))
  }

  /** The dict `norm` of line 40. */
  function NormalizeRow(row: Row): (r: map<string, string>) {
    ToDict(NormPairs(row))
  }

  /** A header that is absent or holds the empty string: falsy under `norm.get(h)`. */
  predicate Blank(norm: map<string, string>, h: string) {
    h !in norm || norm[h] == ""
  }

  /** `norm.get(names[0]) or norm.get(names[1]) or ... or ''`: the value under the first of
      the synonyms that holds a non-empty value. */
  function FirstFilled(norm: map<string, string>, names: seq<string>): (r: string)
    ensures r == "" <==> forall i :: 0 <= i < |names| ==> Blank(norm, names[i])
    ensures r != "" ==> exists i :: 0 <= i < |names| && names[i] in norm && norm[names[i]] == r
                                   && forall i' :: 0 <= i' < i ==> Blank(norm, names[i'])
  {
    if names == [] then
      ""
    else if names[0] in norm && norm[names[0]] != "" then
      norm[names[0]]
    else
      var r := FirstFilled(norm, names[1..]);
      assert forall i :: 1 <= i < |names| ==> names[i] == names[1..][i - 1];
      r
  }

  /** The cells a row contributes once its headers are resolved. */
  datatype Fields = Fields(name: string, email: string, ageRaw: string, gradesCell: string)

  const NameHeaders: seq<string> := ["name", "student", "full name"]
  const GradeHeaders: seq<string> := ["grades", "grade", "score"]

  /** Header resolution of one row: name from `name`/`student`/`full name`, email from
      `email`, age text from `age`, grade cell from `grades`/`grade`/`score`. */
  function RowFields(row: Row): (r: Fields) {
    var norm := NormalizeRow(row);
    Fields(FirstFilled(norm, NameHeaders), FirstFilled(norm, ["email"]),
           FirstFilled(norm, ["age"]), FirstFilled(norm, GradeHeaders))
  }

  /** `int(age_raw) if age_raw else None`, with any exception turned into `None`. */
  function ParseAge(raw: string): (r: Option<int>)
    ensures r.Some? <==> raw != "" && IsIntLiteral(raw)
  {
    if raw == "" then None else ParseInt(raw)
  }

  /** An age cell holding the decimal text of a number gives back that number. */
  lemma {:induction false} ParseAgeString(n: int)
    ensures ParseAge(IntString(n)) == Some(n)
  {
    ParseIntString(n);
  }

  /** The deduplication key `(name or placeholder, email or '')`. */
  datatype Key = Key(name: string, email: string)

  /** `f'unknown_{count+1}'` for a dict that already holds `count` students. */
  function Placeholder(count: nat): (r: string) {
    "unknown_" + NatString(count + 1)
  }

  /** The key of a row read when `count` students are already known. */
  function RowKey(f: Fields, count: nat): (r: Key) {
    Key(if f.name != "" then f.name else Placeholder(count), f.email)
  }

  /** A value of `students_map`. */
  datatype Entry = Entry(name: string, email: string, age: Option<int>)

  /** An entry of `grades_temp`. */
  datatype Pending = Pending(key: Key, score: Option<string>)

  /** The loop state: `students_map` as its keys in insertion order plus the key-to-entry map,
      and `grades_temp`. */
  datatype Acc = Acc(order: seq<Key>, entries: map<Key, Entry>, pending: seq<Pending>)

  /** The dict is well formed: the key order lists each key of `entries` once, and every
      pending grade belongs to a known key. */
  ghost predicate Valid(acc: Acc) {
    && NoDups(acc.order)
    && (forall k :: k in acc.entries <==> k in acc.order)
    && (forall i :: 0 <= i < |acc.pending| ==> acc.pending[i].key in acc.entries)
  }

  /** The scores of a grade cell (lines 47, 67-68): `_parse_score` of each value
      `_split_multi` finds, in order. */
  function CellScores(cell: string): (r: seq<Option<string>>) {
    var vals := FieldSplitter.SplitMulti(Some(cell));
    seq(|vals|, i requires 0 <= i < |vals| => ScoreParser.ParseScore(Some(vals[i])))
  }

  /** `scores` holds one score per piece: none exactly where the piece has no digit, and
      otherwise the piece's first number. */
  ghost predicate ScoresOf(pieces: seq<string>, scores: seq<Option<string>>) {
    && |scores| == |pieces|
    && (forall i :: 0 <= i < |pieces| ==> (scores[i].None? <==> !HasDigit(pieces[i])))
    && forall i :: 0 <= i < |pieces| && scores[i].Some? ==>
         exists p :: ScoreParser.IsFirstNumberAt(pieces[i], p, scores[i].value)
  }

  /** A grade cell has one score per non-blank stripped delimiter run, in order. */
  lemma {:induction false} CellScoresMeaning(cell: string)
    ensures ScoresOf(FieldSplitter.KeepNonBlank(FieldSplitter.Runs(cell)), CellScores(cell))
  {
    FieldSplitter.SplitMultiIsStrippedRuns(cell);
    var vals := FieldSplitter.SplitMulti(Some(cell));
    forall i | 0 <= i < |vals| ensures Strip(vals[i]) == vals[i] {
      StripStripped(vals[i]);
    }
  }

  /** What the loop body reads from one row before touching `students_map`: the resolved
      cells, the parsed age and the scores of the grade cell. */
  datatype RowInfo = RowInfo(fields: Fields, age: Option<int>, scores: seq<Option<string>>)

  /** Lines 40-52 for one row. */
  function ReadRow(row: Row): (r: RowInfo) {
    var f := RowFields(row);
    RowInfo(f, ParseAge(f.ageRaw), CellScores(f.gradesCell))
  }

  /** One pass of the row loop (lines 54-69). */
  function Step(acc: Acc, info: RowInfo): (r: Acc) {
    var f, age, scores := info.fields, info.age, info.scores;
    var key := RowKey(f, |acc.order|);
    var acc' :=
      if key !in acc.entries then
        Acc(acc.order + [key], acc.entries[key := Entry(f.name, f.email, age)], acc.pending)
      else if acc.entries[key].age.None? && age.Some? then
        acc.(entries := acc.entries[key := acc.entries[key].(age := age)])
      else
        acc;
    acc'.(pending := acc'.pending + seq(|scores|, i requires 0 <= i < |scores| => Pending(key, scores[i])))
  }

  /** One pass of the row loop keeps the dict well formed. */
  lemma {:induction false} StepValid(acc: Acc, info: RowInfo)
    requires Valid(acc)
    ensures Valid(Step(acc, info))
  {
    var key := RowKey(info.fields, |acc.order|);
    var acc' := Step(acc, info);
    assert forall k :: k in acc.entries ==> k in acc'.entries;
    assert key in acc'.entries;
  }

  /** A row whose key is new appends the key to the insertion order; any other row leaves the
      order alone. */
  lemma {:induction false} StepOrder(acc: Acc, info: RowInfo)
    requires Valid(acc)
    ensures var key := RowKey(info.fields, |acc.order|);
            Step(acc, info).order == if key in acc.order then acc.order else acc.order + [key]
  {
  }

  /** A row files a new key under its own name, email and age; it fills in the age of a known
      key only when that key has none yet and the row has one; no other entry changes. */
  lemma {:induction false} StepEntries(acc: Acc, info: RowInfo)
    requires Valid(acc)
    ensures EntriesStepped(acc.entries, Step(acc, info).entries, RowKey(info.fields, |acc.order|), info)
  {
  }

  /** How one row changes the entries `before` into `after` when it is filed under `key`. */
  ghost predicate EntriesStepped(before: map<Key, Entry>, after: map<Key, Entry>, key: Key, info: RowInfo) {
    && key in after
    && (forall k :: k in after <==> k in before || k == key)
    && (forall k :: k in before && k != key ==> after[k] == before[k])
    && after[key] == if key !in before then Entry(info.fields.name, info.fields.email, info.age)
                     else if before[key].age.None? then before[key].(age := info.age)
                     else before[key]
  }


  /** A row appends one pending grade per score of its grade cell, under its key. */
  lemma {:induction false} StepPending(acc: Acc, info: RowInfo)
    requires Valid(acc)
    ensures var key := RowKey(info.fields, |acc.order|);
            var pend := Step(acc, info).pending;
            && |pend| == |acc.pending| + |info.scores|
            && (forall i :: 0 <= i < |acc.pending| ==> pend[i] == acc.pending[i])
            && forall i :: 0 <= i < |info.scores| ==> pend[|acc.pending| + i] == Pending(key, info.scores[i])
  {
  }

  /** The row loop (lines 39-69) over the rows read so far. */
  function Collect(infos: seq<RowInfo>): (acc: Acc)
    ensures Valid(acc)
    decreases |infos|
  {
    if infos == [] then
      Acc([], map[], [])
    else
      var prev := Collect(infos[..|infos| - 1]);
      StepValid(prev, infos[|infos| - 1]);
      Step(prev, infos[|infos| - 1])
  }

  /** The loop state after one more row is that row's step from the state before it. */
  lemma {:induction false} CollectSnoc(infos: seq<RowInfo>)
    requires infos != []
    ensures Collect(infos) == Step(Collect(infos[..|infos| - 1]), infos[|infos| - 1])
  {
  }

  /** A student of the output. */
  datatype Student = Student(id: nat, name: string, email: string, age: Option<int>)

  /** A grade of the output. */
  datatype Grade = Grade(studentId: nat, score: Option<string>)

  datatype Output = Output(students: seq<Student>, grades: seq<Grade>)

  /** `key_to_new_id`: each key mapped to its 1-based position in the insertion order. */
  function KeyIds(order: seq<Key>): (ids: map<Key, nat>)
    requires NoDups(order)
    ensures forall k :: k in ids <==> k in order
    ensures forall i :: 0 <= i < |order| ==> ids[order[i]] == i + 1
  {
    if order == [] then
      map[]
    else
      var p := order[..|order| - 1];
      assert forall i :: 0 <= i < |p| ==> p[i] == order[i];
      KeyIds(p)[order[|order| - 1] := |order|]
  }

  /** The grade remapping loop (lines 84-91): a pending grade is kept when its key has a
      non-zero new id. */
  function RemapGrades(pending: seq<Pending>, ids: map<Key, nat>): (r: seq<Grade>)
    ensures |r| <= |pending|
    ensures (forall i :: 0 <= i < |pending| ==> pending[i].key in ids && ids[pending[i].key] != 0) ==>
              |r| == |pending| && forall i :: 0 <= i < |r| ==> r[i] == Grade(ids[pending[i].key], pending[i].score)
  {
    if pending == [] then
      []
    else
      var g := pending[0];
      var rest := RemapGrades(pending[1..], ids);
      (if g.key in ids && ids[g.key] != 0 then [Grade(ids[g.key], g.score)] else []) + rest
  }

  /** Numbering the students and remapping the grades (lines 72-93). */
  function Renumber(acc: Acc): (r: Output)
    requires Valid(acc)
  {
    var students := seq(|acc.order|, i requires 0 <= i < |acc.order| =>
      var e := acc.entries[acc.order[i]];
      Student(i + 1, e.name, e.email, e.age));
    Output(students, RemapGrades(acc.pending, KeyIds(acc.order)))
  }

  /** Grade `i` carries the score of pending grade `i` and the 1-based position of its key in
      `order`. */
  ghost predicate GradesKept(order: seq<Key>, pending: seq<Pending>, grades: seq<Grade>) {
    && |grades| == |pending|
    && forall i :: 0 <= i < |pending| ==>
         && 1 <= grades[i].studentId <= |order|
         && order[grades[i].studentId - 1] == pending[i].key
         && grades[i].score == pending[i].score
  }

  /** Remapping grades whose keys are all numbered keeps every grade. */
  lemma {:induction false} RemapKeepsGrades(pending: seq<Pending>, order: seq<Key>, ids: map<Key, nat>)
    requires forall k :: k in ids <==> k in order
    requires forall i :: 0 <= i < |order| ==> ids[order[i]] == i + 1
    requires forall i :: 0 <= i < |pending| ==> pending[i].key in order
    ensures GradesKept(order, pending, RemapGrades(pending, ids))
  {
    forall i | 0 <= i < |pending|
      ensures pending[i].key in ids && 1 <= ids[pending[i].key] <= |order|
              && order[ids[pending[i].key] - 1] == pending[i].key
    {
      var m := FirstIndex(order, pending[i].key);
      assert ids[order[m]] == m + 1;
    }
  }

  /** In a well-formed loop state every pending grade's key has an id, so the check of line 87
      drops nothing: each pending grade becomes one grade, in order, whose student number is the
      1-based position of its key in the insertion order. */
  lemma {:induction false} RenumberKeepsGrades(acc: Acc)
    requires Valid(acc)
    ensures GradesKept(acc.order, acc.pending, Renumber(acc).grades)
  {
    RemapKeepsGrades(acc.pending, acc.order, KeyIds(acc.order));
  }

  /** Lines 40-52 for every row, in order. */
  function ReadRows(rows: seq<Row>): (infos: seq<RowInfo>) {
    seq(|rows|, j requires 0 <= j < |rows| => ReadRow(rows[j]))
  }

  /** `scrape_students_from_csv` after the file has been read. */
  function Ingest(rows: seq<Row>): (r: Output) {
    Renumber(Collect(ReadRows(rows)))
  }
}
