/**
 * The record transformer: every fetched `(name, ric) -> payload` entry becomes one flat
 * record holding the instrument's name, its code, the code split into ticker and exchange,
 * the peer-comparison fields under lower-cased names and the ESG scores and weights under
 * normalised `esg_` names.
 */
module Agent {
  import opened Wrappers
  import opened Text
  import Lseg  // the entries are keyed by the client's identity keys

  // ---------------------------------------------------------------------
  // Data model
  // ---------------------------------------------------------------------

  /** A JSON scalar as the provider sends it. */
  datatype Scalar = Null | Bool(b: bool) | Int(i: int) | Float(x: real) | Str(s: string)

  /** A subfield's value: a scalar, or an object such as `{"score": .., "weight": ..}`. */
  datatype Value = Atom(a: Scalar) | Obj(fields: map<string, Scalar>)

  /** The subfields of one category, in the payload's order. */
  type Subfields = seq<(string, Value)>

  /** A fetched payload: categories (`esgScore`, `industryComparison`, ...) in order. */
  type Payload = seq<(string, Subfields)>

  /** A flat output record: column name to value. */
  type Record = map<string, Value>

  /** The assignments `record[key] = value` that building a record performs, in order. */
  type Log = seq<(string, Value)>

  datatype Error =
    | TypeError(subfield: string)  // an `esgScore` subfield whose value is not an object
    | UnpackError(arity: nat)       // a key that is not a `(name, ric)` pair

  const IndustryComparison := "industryComparison"
  const EsgScore := "esgScore"

  // ---------------------------------------------------------------------
  // Ticker and exchange
  // ---------------------------------------------------------------------

  /** `ric.split(".")[0]` */
  function Ticker(ric: string): string {
    Split(ric, ".")[0]
  }

  /** `ric.split(".")[-1] if "." in ric else None` */
  function Exchange(ric: string): Option<string> {
    if Contains(ric, ".") then Some(LastPiece(ric, ".")) else None
  }

  /** The ticker is the part of the code before its first dot, or the whole code without one. */
  lemma TickerIsPrefixBeforeFirstDot(ric: string)
    ensures '.' !in Ticker(ric)
    ensures '.' !in ric ==> Ticker(ric) == ric
    ensures '.' in ric ==>
      |Ticker(ric)| < |ric| && ric[..|Ticker(ric)|] == Ticker(ric) && ric[|Ticker(ric)|] == '.'
  {
    var pieces := Split(ric, ".");
    SplitPiecesFree(ric, ".");
    ContainsChar(pieces[0], '.');
    ContainsChar(ric, '.');
    SeveralPiecesIffContains(ric, ".");
    JoinSplit(ric, ".");
    if |pieces| >= 2 {
      assert pieces == [pieces[0]] + pieces[1..];
      JoinCons(pieces[0], pieces[1..], ".");
      assert ric == pieces[0] + "." + Join(pieces[1..], ".");
      assert ric[|pieces[0]|] == '.';
    }
  }

  /** The exchange exists exactly when the code has a dot, and is the part after its last dot. */
  lemma ExchangeIsSuffixAfterLastDot(ric: string)
    ensures Exchange(ric).Some? <==> '.' in ric
    ensures Exchange(ric).Some? ==>
      var e := Exchange(ric).value;
      && '.' !in e && |e| < |ric|
      && ric[|ric| - |e| - 1] == '.' && ric[|ric| - |e|..] == e
  {
    ContainsChar(ric, '.');
    if '.' in ric {
      var e := LastPiece(ric, ".");
      LastPieceIsSuffix(ric, ".");
      SeparatorBeforeLastPiece(ric, ".");
      SplitPiecesFree(ric, ".");
      ContainsChar(e, '.');
      assert ric[|ric| - |e| - 1..|ric| - |e|] == ".";
    }
  }

  // ---------------------------------------------------------------------
  // ESG column names
  // ---------------------------------------------------------------------

  /**
   * The column name of an `esgScore` subfield: lower-case it, then run the three deletion
   * stages, then put `esg_` in front.
   */
  function EsgKey(subfield: string): string {
    "esg_" + Normalise(Lower(subfield), 3)
  }

  /**
   * The deletion stages still to run on `name`, counted down: stage 3 deletes every `tr.`,
   * stage 2 every `tresg` unless the name is exactly `tresg`, stage 1 every `pillar`.
   */
  function Normalise(name: string, stage: nat): string
    decreases stage
  {
    if stage == 0 then name
    else if stage == 3 then Normalise(Replace(name, "tr.", ""), 2)
    else if stage == 2 then
      Normalise(if name != "tresg" && Contains(name, "tresg") then Replace(name, "tresg", "") else name, 1)
    else Normalise(if Contains(name, "pillar") then Replace(name, "pillar", "") else name, 0)
  }

  /** A column produced from an `esgScore` subfield. */
  predicate IsEsgColumn(s: string) {
    |s| >= 4 && s[..4] == "esg_"
  }

  /** Every ESG column name starts with `esg_` and holds no capital letter. */
  lemma EsgKeyShape(subfield: string)
    ensures IsEsgColumn(EsgKey(subfield))
    ensures IsLowerCase(EsgKey(subfield))
  {
    var a := Replace(Lower(subfield), "tr.", "");
    DeleteKeepsLowerCase(Lower(subfield), "tr.");
    var b := if a != "tresg" && Contains(a, "tresg") then Replace(a, "tresg", "") else a;
    DeleteKeepsLowerCase(a, "tresg");
    var c := if Contains(b, "pillar") then Replace(b, "pillar", "") else b;
    DeleteKeepsLowerCase(b, "pillar");
    assert EsgKey(subfield) == "esg_" + c;
  }

  /** Subfield names that differ only in the case of their letters get the same column. */
  lemma EsgKeyIgnoresCase(subfield: string)
    ensures EsgKey(Lower(subfield)) == EsgKey(subfield)
  {
    LowerIdempotent(subfield);
  }

  /** `s` holds none of the words that `EsgKey` deletes. */
  predicate HoldsNoDeletedWord(s: string) {
    !Contains(s, "tr.") && !Contains(s, "tresg") && !Contains(s, "pillar")
  }

  /** Stage 3 deletes `tr.`. */
  lemma TrStage(name: string, rest: string)
    requires Replace(name, "tr.", "") == rest
    ensures Normalise(name, 3) == Normalise(rest, 2)
  {
  }

  /** Stage 2 leaves a name alone when it is exactly `tresg` or does not hold `tresg`. */
  lemma TresgStageKeeps(name: string)
    requires name == "tresg" || !Contains(name, "tresg")
    ensures Normalise(name, 2) == Normalise(name, 1)
  {
  }

  /** Stage 2 deletes `tresg` from any other name that holds it. */
  lemma TresgStageDeletes(name: string, rest: string)
    requires name != "tresg" && Contains(name, "tresg") && Replace(name, "tresg", "") == rest
    ensures Normalise(name, 2) == Normalise(rest, 1)
  {
  }

  /** Stage 1 leaves a name without `pillar` alone. */
  lemma PillarStageKeeps(name: string)
    requires !Contains(name, "pillar")
    ensures Normalise(name, 1) == name
  {
  }

  /** Stage 1 deletes `pillar`. */
  lemma PillarStageDeletes(name: string, rest: string)
    requires Contains(name, "pillar") && Replace(name, "pillar", "") == rest
    ensures Normalise(name, 1) == rest
  {
  }

  /** A leading `tr.` goes, and nothing else, when the rest holds no `tr.`. */
  lemma TrPrefixStage(rest: string)
    requires !Contains(rest, "tr.")
    ensures Normalise("tr." + rest, 3) == Normalise(rest, 2)
  {
    ReplaceLeading("tr.", rest, "");
    ReplaceAbsent(rest, "tr.", "");
    assert "" + rest == rest;
    TrStage("tr." + rest, rest);
  }

  /**
   * A name `TR.x` where the lower-cased `x` holds none of the deleted words becomes
   * `esg_` followed by the lower-cased `x`.
   */
  lemma EsgKeyOfPlainName(x: string)
    requires HoldsNoDeletedWord(Lower(x))
    ensures EsgKey("TR." + x) == "esg_" + Lower(x)
  {
    var l := Lower(x);
    LowerTr(x);
    TrPrefixStage(l);
    TresgStageKeeps(l);
    PillarStageKeeps(l);
  }

  lemma LowerTr(x: string)
    ensures Lower("TR." + x) == "tr." + Lower(x)
  {
  }

  lemma LowerTrTresg(x: string)
    ensures Lower("TR.TRESG" + x) == "tr." + ("tresg" + Lower(x))
  {
  }

  /**
   * A name `TR.TRESGx`, with `x` non-empty and free of the deleted words, loses its `TRESG`:
   * it becomes `esg_` followed by the lower-cased `x`.
   */
  lemma EsgKeyOfTresgName(x: string)
    requires x != [] && HoldsNoDeletedWord(Lower(x))
    ensures EsgKey("TR.TRESG" + x) == "esg_" + Lower(x)
  {
    var l := Lower(x);
    var a := "tresg" + l;
    LowerTrTresg(x);
    TresgKeepsTr(l);
    TrStage("tr." + a, a) by {
      ReplaceLeading("tr.", a, "");
      assert "" + a == a;
    }
    TresgLeading(l);
    TresgStageDeletes(a, l);
    PillarStageKeeps(l);
  }

  /** `tresg` followed by a non-empty name free of `tresg` loses exactly that prefix. */
  lemma TresgLeading(l: string)
    requires l != [] && !Contains(l, "tresg")
    ensures "tresg" + l != "tresg" && Contains("tresg" + l, "tresg")
    ensures Replace("tresg" + l, "tresg", "") == l
  {
    assert |"tresg" + l| > 5;
    ContainsInfix([], "tresg", l);
    assert [] + "tresg" + l == "tresg" + l;
    ReplaceLeading("tresg", l, "");
    ReplaceAbsent(l, "tresg", "");
    assert "" + l == l;
  }

  lemma TresgKeepsTr(l: string)
    requires !Contains(l, "tr.")
    ensures Replace("tresg" + l, "tr.", "") == "tresg" + l
  {
    var a := "tresg" + l;
    assert a[..3] != "tr." by { assert a[..3][2] == 'e'; }
    assert a[1..] == "resg" + l;
    ReplaceSkips("resg", l, "tr.", "");
    ReplaceAbsent(l, "tr.", "");
  }

  /** The overall ESG score's column. */
  lemma EsgKeyOfScore(subfield: string)
    requires subfield == "TR.TRESGScore"
    ensures EsgKey(subfield) == "esg_score"
  {
    ScoreWord();
    EsgKeyOfTresgName("Score");
  }

  lemma ScoreWord()
    ensures Lower("Score") == "score" && HoldsNoDeletedWord(Lower("Score"))
    ensures "TR.TRESG" + "Score" == "TR.TRESGScore" && "esg_" + Lower("Score") == "esg_score"
  {
    ScoreWordFree(Lower("Score"));
  }

  lemma ScoreWordFree(s: string)
    requires s == "score"
    ensures HoldsNoDeletedWord(s)
  {
    AbsentChar(s, "tr.", 0);
    AbsentChar(s, "tresg", 0);
    ShortIsFree(s, "pillar");
  }

  /** A subfield named exactly `TR.TRESG` keeps `tresg` in its column name. */
  lemma EsgKeyOfTresg(subfield: string)
    requires subfield == "TR.TRESG"
    ensures EsgKey(subfield) == "esg_tresg"
  {
    var w := TresgWord(subfield);
    TrPrefixStage(w);
    TresgStageKeeps(w);
    PillarStageKeeps(w);
  }

  lemma TresgWord(subfield: string) returns (w: string)
    requires subfield == "TR.TRESG"
    ensures w == "tresg" && Lower(subfield) == "tr." + w && "esg_" + w == "esg_tresg"
    ensures !Contains(w, "tr.") && !Contains(w, "pillar")
  {
    w := "tresg";
    assert Lower(subfield) == "tr." + w;
    AbsentChar(w, "tr.", 2);
    ShortIsFree(w, "pillar");
  }

  /** A pillar score loses the word `pillar`. */
  lemma EsgKeyOfPillar(subfield: string)
    requires subfield == "TR.EnvironmentPillarScore"
    ensures EsgKey(subfield) == "esg_environmentscore"
  {
    var e, p, c := PillarWords(subfield);
    var s := e + p + c;
    TrPrefixStage(s);
    TresgStageKeeps(s);
    PillarDeleted(e, p, c);
    PillarStageDeletes(s, e + c);
  }

  lemma PillarWords(subfield: string) returns (e: string, p: string, c: string)
    requires subfield == "TR.EnvironmentPillarScore"
    ensures p == "pillar" && p[0] !in e && !Contains(c, p)
    ensures Lower(subfield) == "tr." + (e + p + c)
    ensures "esg_" + (e + c) == "esg_environmentscore"
    ensures !Contains(e + p + c, "tr.") && !Contains(e + p + c, "tresg")
  {
    e, p, c := "environment", "pillar", "score";
    PillarSpelling(subfield);
    LowerConcat("TR.", "Environment" + "Pillar" + "Score");
    LowerConcat("Environment" + "Pillar", "Score");
    LowerConcat("Environment", "Pillar");
    LowerPillarWords();
    PillarWordsFree(e, p, c);
  }

  lemma PillarSpelling(subfield: string)
    requires subfield == "TR.EnvironmentPillarScore"
    ensures subfield == "TR." + ("Environment" + "Pillar" + "Score")
  {
  }

  lemma LowerPillarWords()
    ensures Lower("TR.") == "tr." && Lower("Environment") == "environment"
    ensures Lower("Pillar") == "pillar" && Lower("Score") == "score"
  {
  }

  lemma PillarWordsFree(e: string, p: string, c: string)
    requires e == "environment" && p == "pillar" && c == "score"
    ensures p[0] !in e && !Contains(c, p) && "esg_" + (e + c) == "esg_environmentscore"
    ensures !Contains(e + p + c, "tr.") && !Contains(e + p + c, "tresg")
  {
    PillarWordsHoldNoDot(e + p + c);
    PillarWordsHoldNoG(e + p + c);
    PillarWordsSeparate(e, p, c);
  }

  lemma PillarWordsSeparate(e: string, p: string, c: string)
    requires e == "environment" && p == "pillar" && c == "score"
    ensures p[0] !in e && !Contains(c, p) && "esg_" + (e + c) == "esg_environmentscore"
  {
    ShortIsFree(c, p);
  }

  lemma PillarWordsHoldNoDot(s: string)
    requires s == "environment" + "pillar" + "score"
    ensures !Contains(s, "tr.")
  {
    AbsentChar(s, "tr.", 2);
  }

  lemma PillarWordsHoldNoG(s: string)
    requires s == "environment" + "pillar" + "score"
    ensures !Contains(s, "tresg")
  {
    AbsentChar(s, "tresg", 4);
  }

  /** Deleting `p` from `e + p + c`, where `e` cannot begin `p` and `c` does not hold it. */
  lemma PillarDeleted(e: string, p: string, c: string)
    requires |p| > 0 && p[0] !in e && !Contains(c, p)
    ensures Contains(e + p + c, p) && Replace(e + p + c, p, "") == e + c
  {
    ContainsInfix(e, p, c);
    assert e + p + c == e + (p + c);
    ReplaceSkips(e, p + c, p, "");
    ReplaceLeading(p, c, "");
    ReplaceAbsent(c, p, "");
    assert "" + c == c;
  }

  // ---------------------------------------------------------------------
  // Record construction as a sequence of writes
  // ---------------------------------------------------------------------

  /**
   * `v2[field] if field in v2 else 0` for an `esgScore` subfield's value. An object is
   * looked up by key; for a string `field in v2` is a substring test, and when it succeeds
   * indexing the string by `field` fails; for any other scalar the `in` test itself fails.
   */
  function Field(v: Value, field: string, subfield: string): (r: Result<Value, Error>)
    ensures r.Failure? <==> !v.Obj? && !(v.a.Str? && !Contains(v.a.s, field))
    ensures r.Failure? ==> r.error == TypeError(subfield)
    ensures r.Success? && v.Obj? && field in v.fields ==> r.value == Atom(v.fields[field])
    ensures r.Success? && !(v.Obj? && field in v.fields) ==> r.value == Atom(Int(0))
  {
    match v
    case Obj(m) => Success(if field in m then Atom(m[field]) else Atom(Int(0)))
    case Atom(Str(s)) => if Contains(s, field) then Failure(TypeError(subfield)) else Success(Atom(Int(0)))
    case Atom(_) => Failure(TypeError(subfield))
  }

  /** The writes one subfield `(k2, v2)` of category `k` performs on the record. */
  function EntryWrites(k: string, k2: string, v2: Value): Result<Log, Error> {
    if k == IndustryComparison then Success([(Lower(k2), v2)])
    else if k == EsgScore then
      var key := EsgKey(k2);
      var score :- Field(v2, "score", k2);
      var weight :- Field(v2, "weight", k2);
      Success([(key, score), (key + "_weight", weight)])
    else Success([])
  }

  /** The writes of the subfields of category `k`, in order; the first failure stops them. */
  function CategoryWrites(k: string, subs: Subfields): Result<Log, Error>
    decreases |subs|
  {
    if subs == [] then Success([])
    else
      var init :- CategoryWrites(k, subs[..|subs| - 1]);
      var last :- EntryWrites(k, subs[|subs| - 1].0, subs[|subs| - 1].1);
      Success(init + last)
  }

  /** The writes of a whole payload, category by category. */
  function PayloadWrites(data: Payload): Result<Log, Error>
    decreases |data|
  {
    if data == [] then Success([])
    else
      var init :- PayloadWrites(data[..|data| - 1]);
      var last :- CategoryWrites(data[|data| - 1].0, data[|data| - 1].1);
      Success(init + last)
  }

  /** Performing the writes `log` on `rec` one after the other. */
  function Apply(rec: Record, log: Log): Record
    decreases |log|
  {
    if log == [] then rec
    else Apply(rec, log[..|log| - 1])[log[|log| - 1].0 := log[|log| - 1].1]
  }

  /** The four fields every record starts with. */
  function BaseRecord(name: string, ric: string): Record {
    map[
      "name" := Atom(Str(name)),
      "ext8_ticker" := Atom(Str(ric)),
      "ticker" := Atom(Str(Ticker(ric))),
      "exchange" := match Exchange(ric) case None => Atom(Null) case Some(e) => Atom(Str(e))
    ]
  }

  /** The record `construct_record(name, ric, data)` returns, or the error it raises. */
  function RecordOf(name: string, ric: string, data: Payload): Result<Record, Error> {
    var log :- PayloadWrites(data);
    Success(Apply(BaseRecord(name, ric), log))
  }

  lemma ApplyAppend(rec: Record, log: Log, w: (string, Value))
    ensures Apply(rec, log + [w]) == Apply(rec, log)[w.0 := w.1]
  {
    assert (log + [w])[..|log|] == log;
  }

  lemma ApplyConcat(rec: Record, log: Log, more: Log)
    ensures Apply(rec, log + more) == Apply(Apply(rec, log), more)
    decreases |more|
  {
    if more != [] {
      var init := more[..|more| - 1];
      assert log + more == (log + init) + [more[|more| - 1]];
      ApplyAppend(rec, log + init, more[|more| - 1]);
      ApplyConcat(rec, log, init);
      assert more == init + [more[|more| - 1]];
      ApplyAppend(Apply(rec, log), init, more[|more| - 1]);
    } else {
      assert log + more == log;
    }
  }

  /** The record holds the old keys and every key written. */
  lemma {:induction false} ApplyKeys(rec: Record, log: Log)
    ensures Apply(rec, log).Keys == rec.Keys + set i | 0 <= i < |log| :: log[i].0
    decreases |log|
  {
    if log != [] {
      var init := log[..|log| - 1];
      ApplyKeys(rec, init);
      var ks := set i | 0 <= i < |log| :: log[i].0;
      var ks' := set i | 0 <= i < |init| :: init[i].0;
      assert ks == ks' + {log[|log| - 1].0} by {
        forall k | k in ks ensures k in ks' + {log[|log| - 1].0} {
          var i :| 0 <= i < |log| && log[i].0 == k;
          if i < |init| { assert init[i].0 == k; }
        }
        forall k | k in ks' ensures k in ks {
          var i :| 0 <= i < |init| && init[i].0 == k;
          assert log[i].0 == k;
        }
      }
    }
  }

  /** A key's value is the value of its last write. */
  lemma {:induction false} ApplyLastWriteWins(rec: Record, log: Log, i: nat)
    requires i < |log|
    requires forall j :: i < j < |log| ==> log[j].0 != log[i].0
    ensures log[i].0 in Apply(rec, log) && Apply(rec, log)[log[i].0] == log[i].1
    decreases |log|
  {
    if i < |log| - 1 {
      ApplyLastWriteWins(rec, log[..|log| - 1], i);
    }
  }

  /** A key that is never written keeps its old value, or stays absent. */
  lemma {:induction false} ApplyUntouched(rec: Record, log: Log, k: string)
    requires forall j :: 0 <= j < |log| ==> log[j].0 != k
    ensures k in Apply(rec, log) <==> k in rec
    ensures k in rec ==> Apply(rec, log)[k] == rec[k]
    decreases |log|
  {
    if log != [] {
      ApplyUntouched(rec, log[..|log| - 1], k);
    }
  }

  // ---------------------------------------------------------------------
  // What the writes are
  // ---------------------------------------------------------------------

  /** An `esgScore` subfield value whose score and weight can be read (or defaulted). */
  predicate EsgReadable(v: Value) {
    v.Obj? || (v.a.Str? && !Contains(v.a.s, "score") && !Contains(v.a.s, "weight"))
  }

  /** The write log of a list of writes, split after its `n`-th entry. */
  lemma CategoryWritesPrefix(k: string, subs: Subfields, n: nat)
    requires n < |subs|
    ensures CategoryWrites(k, subs[..n + 1]) ==
      (match CategoryWrites(k, subs[..n])
       case Failure(e) => Failure(e)
       case Success(init) =>
         match EntryWrites(k, subs[n].0, subs[n].1)
         case Failure(e) => Failure(e)
         case Success(last) => Success(init + last))
  {
    assert subs[..n + 1][..n] == subs[..n];
  }

  /** Once the writes of a prefix fail, the writes of the whole category fail the same way. */
  lemma {:induction false} CategoryFailureExtends(k: string, subs: Subfields, n: nat)
    requires n <= |subs| && CategoryWrites(k, subs[..n]).Failure?
    ensures CategoryWrites(k, subs) == CategoryWrites(k, subs[..n])
    decreases |subs| - n
  {
    if n == |subs| {
      assert subs[..n] == subs;
    } else {
      CategoryWritesPrefix(k, subs, n);
      CategoryFailureExtends(k, subs, n + 1);
    }
  }

  lemma PayloadWritesPrefix(data: Payload, n: nat)
    requires n < |data|
    ensures PayloadWrites(data[..n + 1]) ==
      (match PayloadWrites(data[..n])
       case Failure(e) => Failure(e)
       case Success(init) =>
         match CategoryWrites(data[n].0, data[n].1)
         case Failure(e) => Failure(e)
         case Success(last) => Success(init + last))
  {
    assert data[..n + 1][..n] == data[..n];
  }

  /** Once the writes of some categories fail, the writes of the whole payload fail the same way. */
  lemma {:induction false} PayloadFailureExtends(data: Payload, n: nat)
    requires n <= |data| && PayloadWrites(data[..n]).Failure?
    ensures PayloadWrites(data) == PayloadWrites(data[..n])
    decreases |data| - n
  {
    if n == |data| {
      assert data[..n] == data;
    } else {
      PayloadWritesPrefix(data, n);
      PayloadFailureExtends(data, n + 1);
    }
  }

  /** The first failing subfield decides the error of the whole payload. */
  lemma FailsAt(data: Payload, i: nat, j: nat, e: Error)
    requires i < |data| && j < |data[i].1|
    requires PayloadWrites(data[..i]).Success? && CategoryWrites(data[i].0, data[i].1[..j]).Success?
    requires EntryWrites(data[i].0, data[i].1[j].0, data[i].1[j].1) == Failure(e)
    ensures PayloadWrites(data) == Failure(e)
  {
    CategoryWritesPrefix(data[i].0, data[i].1, j);
    CategoryFailureExtends(data[i].0, data[i].1, j + 1);
    PayloadWritesPrefix(data, i);
    PayloadFailureExtends(data, i + 1);
  }

  /** An `industryComparison` category writes each value under its lower-cased subfield name. */
  lemma {:induction false} IndustryWrites(subs: Subfields)
    ensures CategoryWrites(IndustryComparison, subs).Success?
    ensures var log := CategoryWrites(IndustryComparison, subs).value;
      && |log| == |subs|
      && forall i :: 0 <= i < |subs| ==> log[i] == (Lower(subs[i].0), subs[i].1)
    decreases |subs|
  {
    if subs != [] {
      var n := |subs| - 1;
      IndustryWrites(subs[..n]);
      assert forall i :: 0 <= i < n ==> subs[..n][i] == subs[i];
    }
  }

  /** `v2[field] if field in v2 else 0` for a readable `esgScore` value. */
  function ValueOr0(v: Value, field: string): Value {
    if v.Obj? && field in v.fields then Atom(v.fields[field]) else Atom(Int(0))
  }

  lemma EsgEntryFails(k2: string, v2: Value)
    ensures EntryWrites(EsgScore, k2, v2).Success? <==> EsgReadable(v2)
    ensures EntryWrites(EsgScore, k2, v2).Failure? ==> EntryWrites(EsgScore, k2, v2).error == TypeError(k2)
  {
  }

  lemma EsgEntryWrites(k2: string, v2: Value)
    requires EsgReadable(v2)
    ensures EntryWrites(EsgScore, k2, v2) ==
      Success([(EsgKey(k2), ValueOr0(v2, "score")), (EsgKey(k2) + "_weight", ValueOr0(v2, "weight"))])
  {
  }

  /**
   * An `esgScore` category succeeds exactly when every subfield value is readable; otherwise
   * it fails naming the first unreadable subfield.
   */
  lemma {:induction false} EsgWritesFail(subs: Subfields)
    ensures CategoryWrites(EsgScore, subs).Success? <==> AllEsgReadable(subs)
    ensures CategoryWrites(EsgScore, subs).Failure? ==>
      exists i :: FirstUnreadable(subs, i) && CategoryWrites(EsgScore, subs).error == TypeError(subs[i].0)
    decreases |subs|
  {
    if subs != [] {
      var n := |subs| - 1;
      var init := subs[..n];
      EsgWritesFail(init);
      EsgEntryFails(subs[n].0, subs[n].1);
      CategoryWritesLast(EsgScore, subs);
      AllEsgReadableLast(subs);
      if CategoryWrites(EsgScore, init).Failure? {
        var i :| FirstUnreadable(init, i) && CategoryWrites(EsgScore, init).error == TypeError(init[i].0);
        FirstUnreadableInit(subs, i);
      } else if !EsgReadable(subs[n].1) {
        FirstUnreadableLast(subs);
      }
    }
  }

  /** Every subfield value of `subs` is readable. */
  predicate AllEsgReadable(subs: Subfields) {
    forall i :: 0 <= i < |subs| ==> EsgReadable(subs[i].1)
  }

  /** The `i`-th subfield value of `subs` is the first that is not readable. */
  predicate FirstUnreadable(subs: Subfields, i: int) {
    0 <= i < |subs| && !EsgReadable(subs[i].1) && forall j :: 0 <= j < i ==> EsgReadable(subs[j].1)
  }

  lemma AllEsgReadableLast(subs: Subfields)
    requires subs != []
    ensures AllEsgReadable(subs) <==> AllEsgReadable(subs[..|subs| - 1]) && EsgReadable(subs[|subs| - 1].1)
  {
    var n := |subs| - 1;
    assert forall i :: 0 <= i < n ==> subs[..n][i] == subs[i];
  }

  lemma FirstUnreadableInit(subs: Subfields, i: int)
    requires subs != [] && FirstUnreadable(subs[..|subs| - 1], i)
    ensures FirstUnreadable(subs, i) && subs[..|subs| - 1][i] == subs[i]
  {
    var n := |subs| - 1;
    assert forall j :: 0 <= j < n ==> subs[..n][j] == subs[j];
  }

  lemma FirstUnreadableLast(subs: Subfields)
    requires subs != [] && AllEsgReadable(subs[..|subs| - 1]) && !EsgReadable(subs[|subs| - 1].1)
    ensures FirstUnreadable(subs, |subs| - 1)
  {
    var n := |subs| - 1;
    assert forall j :: 0 <= j < n ==> subs[..n][j] == subs[j];
  }

  /** A category's writes are those of all but its last subfield, then those of the last. */
  lemma CategoryWritesLast(k: string, subs: Subfields)
    requires subs != []
    ensures var init := CategoryWrites(k, subs[..|subs| - 1]);
      var last := EntryWrites(k, subs[|subs| - 1].0, subs[|subs| - 1].1);
      && (init.Failure? ==> CategoryWrites(k, subs) == init)
      && (init.Success? && last.Failure? ==> CategoryWrites(k, subs) == Failure(last.error))
      && (init.Success? && last.Success? ==> CategoryWrites(k, subs) == Success(init.value + last.value))
  {
  }

  /**
   * An `esgScore` category whose values are all readable writes, per subfield, its score
   * under `EsgKey` and then its weight under `EsgKey + "_weight"`, each defaulting to 0.
   */
  lemma {:induction false} EsgWrites(subs: Subfields)
    requires AllEsgReadable(subs)
    ensures CategoryWrites(EsgScore, subs).Success?
    ensures var log := CategoryWrites(EsgScore, subs).value;
      && |log| == 2 * |subs|
      && forall i :: 0 <= i < |subs| ==>
        && log[2 * i] == (EsgKey(subs[i].0), ValueOr0(subs[i].1, "score"))
        && log[2 * i + 1] == (EsgKey(subs[i].0) + "_weight", ValueOr0(subs[i].1, "weight"))
    decreases |subs|
  {
    if subs != [] {
      var n := |subs| - 1;
      var init := subs[..n];
      assert forall i :: 0 <= i < n ==> init[i] == subs[i];
      EsgWrites(init);
      EsgEntryWrites(subs[n].0, subs[n].1);
      var initLog := CategoryWrites(EsgScore, init).value;
      var last := EntryWrites(EsgScore, subs[n].0, subs[n].1).value;
      var log := CategoryWrites(EsgScore, subs).value;
      assert log == initLog + last;
      forall i | 0 <= i < |subs|
        ensures log[2 * i] == (EsgKey(subs[i].0), ValueOr0(subs[i].1, "score"))
        ensures log[2 * i + 1] == (EsgKey(subs[i].0) + "_weight", ValueOr0(subs[i].1, "weight"))
      {
        if i < n {
          assert log[2 * i] == initLog[2 * i] && log[2 * i + 1] == initLog[2 * i + 1];
        } else {
          assert log[2 * i] == last[0] && log[2 * i + 1] == last[1];
        }
      }
    }
  }

  /** Categories other than `industryComparison` and `esgScore` write nothing. */
  lemma {:induction false} OtherCategoryWrites(k: string, subs: Subfields)
    requires k != IndustryComparison && k != EsgScore
    ensures CategoryWrites(k, subs) == Success([])
    decreases |subs|
  {
    if subs != [] {
      OtherCategoryWrites(k, subs[..|subs| - 1]);
      assert EntryWrites(k, subs[|subs| - 1].0, subs[|subs| - 1].1) == Success([]);
      assert CategoryWrites(k, subs[..|subs| - 1]).value + [] == [];
    }
  }

  /** A payload's categories are applied one after the other, each on the record so far. */
  lemma RecordOfAppend(name: string, ric: string, data: Payload, k: string, subs: Subfields)
    ensures RecordOf(name, ric, data + [(k, subs)]) ==
      (match RecordOf(name, ric, data)
       case Failure(e) => Failure(e)
       case Success(rec) =>
         match CategoryWrites(k, subs)
         case Failure(e) => Failure(e)
         case Success(log) => Success(Apply(rec, log)))
  {
    var d := data + [(k, subs)];
    assert d[..|d| - 1] == data;
    if PayloadWrites(data).Success? && CategoryWrites(k, subs).Success? {
      ApplyConcat(BaseRecord(name, ric), PayloadWrites(data).value, CategoryWrites(k, subs).value);
    }
  }

  /** A category the transformer does not know leaves the record as it was. */
  lemma IgnoredCategory(name: string, ric: string, data: Payload, k: string, subs: Subfields)
    requires k != IndustryComparison && k != EsgScore
    ensures RecordOf(name, ric, data + [(k, subs)]) == RecordOf(name, ric, data)
  {
    RecordOfAppend(name, ric, data, k, subs);
    OtherCategoryWrites(k, subs);
    if RecordOf(name, ric, data).Success? {
      assert Apply(RecordOf(name, ric, data).value, []) == RecordOf(name, ric, data).value;
    }
  }

  // ---------------------------------------------------------------------
  // construct_record
  // ---------------------------------------------------------------------

  /**
   * Builds the record of one entry: the four base fields, then, category by category and
   * subfield by subfield, the writes of `industryComparison` and `esgScore` subfields.
   */
  method ConstructRecord(name: string, ric: string, data: Payload) returns (r: Result<Record, Error>)
    ensures r == RecordOf(name, ric, data)
  {
    var record := BaseRecord(name, ric);
    ghost var log: Log := [];
    var i := 0;
    while i < |data|
      invariant 0 <= i <= |data|
      invariant PayloadWrites(data[..i]) == Success(log)
      invariant record == Apply(BaseRecord(name, ric), log)
    {
      var (k, v) := data[i];
      ghost var catLog: Log := [];
      assert log + catLog == log;
      var j := 0;
      while j < |v|
        invariant 0 <= j <= |v|
        invariant CategoryWrites(k, v[..j]) == Success(catLog)
        invariant record == Apply(BaseRecord(name, ric), log + catLog)
      {
        var (k2, v2) := v[j];
        CategoryWritesPrefix(k, v, j);
        if k == IndustryComparison {
          record := record[Lower(k2) := v2];
          ApplyAppend(BaseRecord(name, ric), log + catLog, (Lower(k2), v2));
          assert log + catLog + [(Lower(k2), v2)] == log + (catLog + [(Lower(k2), v2)]);
          catLog := catLog + [(Lower(k2), v2)];
        } else if k == EsgScore {
          var keyname := EsgKey(k2);
          var score := Field(v2, "score", k2);
          if score.Failure? {
            FailsAt(data, i, j, score.error);
            return Failure(score.error);
          }
          var weight := Field(v2, "weight", k2);
          if weight.Failure? {
            FailsAt(data, i, j, weight.error);
            return Failure(weight.error);
          }
          var w1, w2 := (keyname, score.value), (keyname + "_weight", weight.value);
          record := record[w1.0 := w1.1];
          ApplyAppend(BaseRecord(name, ric), log + catLog, w1);
          record := record[w2.0 := w2.1];
          ApplyAppend(BaseRecord(name, ric), log + catLog + [w1], w2);
          assert log + catLog + [w1] + [w2] == log + (catLog + [w1, w2]);
          catLog := catLog + [w1, w2];
        } else {
          assert catLog + [] == catLog;
        }
        j := j + 1;
      }
      assert v[..j] == v;
      PayloadWritesPrefix(data, i);
      log := log + catLog;
      i := i + 1;
    }
    assert data[..i] == data;
    return Success(record);
  }

  // ---------------------------------------------------------------------
  // Which columns a record has
  // ---------------------------------------------------------------------

  /** The lower-cased names of all `industryComparison` subfields of a payload. */
  function IndustryNames(data: Payload): set<string> {
    set i, j | 0 <= i < |data| && data[i].0 == IndustryComparison && 0 <= j < |data[i].1| :: Lower(data[i].1[j].0)
  }

  /** Every column an `esgScore` category writes starts with `esg_`. */
  lemma EsgColumns(subs: Subfields)
    requires CategoryWrites(EsgScore, subs).Success?
    ensures var log := CategoryWrites(EsgScore, subs).value;
      forall n :: 0 <= n < |log| ==> IsEsgColumn(log[n].0)
  {
    var log := CategoryWrites(EsgScore, subs).value;
    EsgWritesFail(subs);
    EsgWrites(subs);
    forall n | 0 <= n < |log| ensures IsEsgColumn(log[n].0) {
      var m := n / 2;
      EsgKeyShape(subs[m].0);
      if n == 2 * m {
        assert log[2 * m].0 == EsgKey(subs[m].0);
      } else {
        assert n == 2 * m + 1;
        WeightColumn(EsgKey(subs[m].0));
      }
    }
  }

  lemma WeightColumn(key: string)
    requires IsEsgColumn(key)
    ensures IsEsgColumn(key + "_weight")
  {
    assert (key + "_weight")[..4] == key[..4];
  }

  /** Every column a category writes is an industry name of the payload or an ESG column. */
  lemma CategoryWriteKeys(data: Payload, i: nat)
    requires i < |data| && CategoryWrites(data[i].0, data[i].1).Success?
    ensures var log := CategoryWrites(data[i].0, data[i].1).value;
      forall n :: 0 <= n < |log| ==> log[n].0 in IndustryNames(data) || IsEsgColumn(log[n].0)
  {
    var (k, subs) := data[i];
    var log := CategoryWrites(k, subs).value;
    if k == IndustryComparison {
      IndustryWrites(subs);
      forall n | 0 <= n < |log| ensures log[n].0 in IndustryNames(data) {
        assert log[n].0 == Lower(data[i].1[n].0);
      }
    } else if k == EsgScore {
      EsgColumns(subs);
    } else {
      OtherCategoryWrites(k, subs);
    }
  }

  /** Every column a payload writes is one of its industry names or an ESG column. */
  lemma {:induction false} PayloadWriteKeys(data: Payload)
    requires PayloadWrites(data).Success?
    ensures var log := PayloadWrites(data).value;
      forall n :: 0 <= n < |log| ==> log[n].0 in IndustryNames(data) || IsEsgColumn(log[n].0)
    decreases |data|
  {
    if data != [] {
      var m := |data| - 1;
      var init := data[..m];
      PayloadWriteKeys(init);
      CategoryWriteKeys(data, m);
      assert IndustryNames(init) <= IndustryNames(data) by {
        forall s | s in IndustryNames(init) ensures s in IndustryNames(data) {
          var i, j :| 0 <= i < |init| && init[i].0 == IndustryComparison && 0 <= j < |init[i].1|
            && s == Lower(init[i].1[j].0);
          assert init[i] == data[i];
        }
      }
    }
  }

  /**
   * A record keeps its four base fields unless an `industryComparison` subfield's lower-cased
   * name is one of them; ESG columns all start with `esg_` and never replace them.
   */
  lemma BaseFieldsKept(name: string, ric: string, data: Payload)
    requires RecordOf(name, ric, data).Success?
    requires forall f :: f in BaseRecord(name, ric) ==> f !in IndustryNames(data)
    ensures var rec := RecordOf(name, ric, data).value;
      forall f :: f in BaseRecord(name, ric) ==> f in rec && rec[f] == BaseRecord(name, ric)[f]
  {
    var base := BaseRecord(name, ric);
    var log := PayloadWrites(data).value;
    PayloadWriteKeys(data);
    BaseFieldsAreNotEsg();
    forall f | f in base ensures f in Apply(base, log) && Apply(base, log)[f] == base[f] {
      ApplyUntouched(base, log, f);
    }
  }

  lemma BaseFieldsAreNotEsg()
    ensures !IsEsgColumn("name") && !IsEsgColumn("ext8_ticker")
    ensures !IsEsgColumn("ticker") && !IsEsgColumn("exchange")
  {
    assert "name"[0] != 'e';
    assert "ext8_ticker"[1] != 's';
    assert "ticker"[0] != 'e';
    assert "exchange"[1] != 's';
  }

  /** The columns of a record are the base fields and every column written. */
  lemma RecordColumns(name: string, ric: string, data: Payload)
    requires RecordOf(name, ric, data).Success?
    ensures var log := PayloadWrites(data).value;
      RecordOf(name, ric, data).value.Keys
        == {"name", "ext8_ticker", "ticker", "exchange"} + set n | 0 <= n < |log| :: log[n].0
  {
    ApplyKeys(BaseRecord(name, ric), PayloadWrites(data).value);
  }

  /** A payload holding only the overall ESG score, with score 80 and weight 1. */
  lemma ScoreRecord(name: string, ric: string, subfield: string)
    requires subfield == "TR.TRESGScore"
    ensures var v := Obj(map["score" := Int(80), "weight" := Int(1)]);
      RecordOf(name, ric, [(EsgScore, [(subfield, v)])])
        == Success(BaseRecord(name, ric)["esg_score" := Atom(Int(80))]["esg_score_weight" := Atom(Int(1))])
  {
    var v := Obj(map["score" := Int(80), "weight" := Int(1)]);
    EsgKeyOfScore(subfield);
    EsgEntryWrites(subfield, v);
    assert ValueOr0(v, "score") == Atom(Int(80)) && ValueOr0(v, "weight") == Atom(Int(1));
    assert "esg_score" + "_weight" == "esg_score_weight";
    var subs := [(subfield, v)];
    assert subs[..0] == [];
    var log := [("esg_score", Atom(Int(80))), ("esg_score_weight", Atom(Int(1)))];
    assert EntryWrites(EsgScore, subfield, v) == Success(log);
    assert CategoryWrites(EsgScore, subs[..0]) == Success([]);
    assert [] + log == log;
    assert CategoryWrites(EsgScore, subs) == Success(log);
    var data := [(EsgScore, subs)];
    assert data[..0] == [];
    assert PayloadWrites(data) == Success(log);
    ApplyAppend(BaseRecord(name, ric), [log[0]], log[1]);
    assert log == [log[0]] + [log[1]];
    assert [log[0]] == [] + [log[0]];
    ApplyAppend(BaseRecord(name, ric), [], log[0]);
  }

  // ---------------------------------------------------------------------
  // transform
  // ---------------------------------------------------------------------

  /** One fetched entry `((name, ric), payload)` turned into a record; the key must be a pair. */
  function EntryRecord(entry: (Lseg.Key, Payload)): Result<Record, Error> {
    var (key, payload) := entry;
    if |key| != 2 then Failure(UnpackError(|key|)) else RecordOf(key[0], key[1], payload)
  }

  /** The records appended before the loop stops, and the error that stopped it, if any. */
  datatype Transformation = Transformation(records: seq<Record>, failure: Option<Error>)

  /** Turning entries into records in order, stopping at the first entry that fails. */
  function Transformed(entries: seq<(Lseg.Key, Payload)>): Transformation
    decreases |entries|
  {
    if entries == [] then Transformation([], None)
    else
      var t := Transformed(entries[..|entries| - 1]);
      if t.failure.Some? then t
      else match EntryRecord(entries[|entries| - 1])
        case Success(rec) => Transformation(t.records + [rec], None)
        case Failure(e) => Transformation(t.records, Some(e))
  }

  /**
   * The records are those of a prefix of the entries, one per entry and in order; without an
   * error every entry has its record, and an error is the one raised by the first entry
   * without a record.
   */
  lemma {:induction false} TransformedSpec(entries: seq<(Lseg.Key, Payload)>)
    ensures var t := Transformed(entries);
      && |t.records| <= |entries|
      && (forall i :: 0 <= i < |t.records| ==> EntryRecord(entries[i]) == Success(t.records[i]))
      && (t.failure.None? ==> |t.records| == |entries|)
      && (t.failure.Some? ==> |t.records| < |entries| && EntryRecord(entries[|t.records|]) == Failure(t.failure.value))
    decreases |entries|
  {
    if entries != [] {
      var init := entries[..|entries| - 1];
      TransformedSpec(init);
      assert forall i :: 0 <= i < |init| ==> init[i] == entries[i];
    }
  }

  lemma TransformedPrefix(entries: seq<(Lseg.Key, Payload)>, n: nat)
    requires n < |entries|
    ensures Transformed(entries[..n + 1]) ==
      (var t := Transformed(entries[..n]);
       if t.failure.Some? then t
       else match EntryRecord(entries[n])
         case Success(rec) => Transformation(t.records + [rec], None)
         case Failure(e) => Transformation(t.records, Some(e)))
  {
    assert entries[..n + 1][..n] == entries[..n];
  }

  /** Once an entry fails, the later entries change nothing. */
  lemma {:induction false} TransformedStops(entries: seq<(Lseg.Key, Payload)>, n: nat)
    requires n <= |entries| && Transformed(entries[..n]).failure.Some?
    ensures Transformed(entries) == Transformed(entries[..n])
    decreases |entries| - n
  {
    if n == |entries| {
      assert entries[..n] == entries;
    } else {
      TransformedPrefix(entries, n);
      TransformedStops(entries, n + 1);
    }
  }

  /** The transformer: the fetched entries, and the records built from them so far. */
  class Agent {
    var data: seq<(Lseg.Key, Payload)>
    var result: seq<Record>

    constructor(data: seq<(Lseg.Key, Payload)>)
      ensures this.data == data && result == []
    {
      this.data := data;
      result := [];
    }

    /**
     * Appends the record of every entry, in order, to `result`, and returns all records so
     * far. An entry whose key is not a pair, or whose record cannot be built, stops the loop
     * with its error; the records appended before it stay.
     */
    method Transform() returns (r: Result<seq<Record>, Error>)
      modifies this`result
      ensures result == old(result) + Transformed(data).records
      ensures r == match Transformed(data).failure
        case None => Success(result)
        case Some(e) => Failure(e)
    {
      var i := 0;
      while i < |data|
        invariant 0 <= i <= |data|
        invariant Transformed(data[..i]).failure.None?
        invariant result == old(result) + Transformed(data[..i]).records
      {
        var (key, payload) := data[i];
        TransformedPrefix(data, i);
        if |key| != 2 {
          TransformedStops(data, i + 1);
          return Failure(UnpackError(|key|));
        }
        var (name, ric) := (key[0], key[1]);
        var rec := ConstructRecord(name, ric, payload);
        if rec.Failure? {
          TransformedStops(data, i + 1);
          return Failure(rec.error);
        }
        result := result + [rec.value];
        i := i + 1;
      }
      assert data[..i] == data;
      return Success(result);
    }
  }
}