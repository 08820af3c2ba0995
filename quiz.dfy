/** The quiz page: a read-only catalog of quizzes, a linear run through one
    quiz's questions with a lock against answering twice, the live score,
    and the best score per quiz, kept in the store. Only the state each
    handler leaves behind is modelled; the markup it renders is not. */
module Quiz {
  import opened Wrappers
  import opened TextUtils
  import opened Storage
  import opened Search

  /** A catalog question, by its `type`. */
  datatype Question =
    | TextQuestion(prompt: string, acceptedAnswers: Option<seq<string>>)
    | TrueFalseQuestion(prompt: string, correct: bool)
    | OtherQuestion(prompt: string)   // any other `type`

  datatype Quiz = Quiz(id: string, title: string, questions: seq<Question>)

  /** The `value` of a submitted answer: the text typed, or the button pressed. */
  datatype Answer = TextAnswer(text: string) | ChoiceAnswer(choice: bool)

  /** `String(value)`. */
  function AnswerText(a: Answer): (r: string)
    ensures a.TextAnswer? ==> r == a.text
    ensures a.ChoiceAnswer? ==> r == (if a.choice then "true" else "false")
  {
    match a
    case TextAnswer(t) => t
    case ChoiceAnswer(b) => if b then "true" else "false"
  }

  /** `Boolean(value)`: a string is true when it is not empty. */
  function AnswerTruth(a: Answer): (r: bool)
    ensures a.ChoiceAnswer? ==> r == a.choice
    ensures a.TextAnswer? ==> (r <==> a.text != [])
  {
    match a
    case TextAnswer(t) => t != []
    case ChoiceAnswer(b) => b
  }

  /** `acceptedAnswers.map(normalizeTextAnswer)`. */
  function NormalizeAll(xs: seq<string>): (r: seq<string>)
    ensures |r| == |xs|
    ensures forall i :: 0 <= i < |xs| ==> r[i] == NormalizeTextAnswer(xs[i])
  {
    seq(|xs|, i requires 0 <= i < |xs| => NormalizeTextAnswer(xs[i]))
  }

  /** The correctness test inside `checkAnswer`, decided by the question's
      type; a question of any other type is never answered correctly. */
  function IsCorrect(q: Question, a: Answer): (r: bool)
    ensures q.OtherQuestion? ==> !r
  {
    match q
    case TextQuestion(_, accepted) =>
      var list := if accepted.Some? then accepted.value else [];
      NormalizeTextAnswer(AnswerText(a)) in NormalizeAll(list)
    case TrueFalseQuestion(_, correct) => AnswerTruth(a) == correct
    case OtherQuestion(_) => false
  }

  /** A text answer is correct exactly when some accepted answer has the
      same normal form; without a list of accepted answers nothing is
      correct. */
  lemma TextAnswerCorrectIff(prompt: string, accepted: Option<seq<string>>, a: Answer)
    ensures IsCorrect(TextQuestion(prompt, accepted), a) <==>
              accepted.Some? &&
              exists x :: x in accepted.value && NormalizeTextAnswer(x) == NormalizeTextAnswer(AnswerText(a))
  {
    var user := NormalizeTextAnswer(AnswerText(a));
    if accepted.Some? {
      var xs := accepted.value;
      if IsCorrect(TextQuestion(prompt, accepted), a) {
        var i :| 0 <= i < |xs| && NormalizeAll(xs)[i] == user;
        assert xs[i] in xs;
      }
      if x :| x in xs && NormalizeTextAnswer(x) == user {
        var i :| 0 <= i < |xs| && xs[i] == x;
        assert NormalizeAll(xs)[i] == user;
      }
    }
  }

  /** A true/false answer is correct exactly when its truth value is the
      question's. */
  lemma TrueFalseCorrectIff(prompt: string, correct: bool, a: Answer)
    ensures IsCorrect(TrueFalseQuestion(prompt, correct), a) <==> AnswerTruth(a) == correct
  {
  }

  /** Typing an answer already in normal form, or in any other form with the
      same normal form, makes no difference. */
  lemma CorrectnessIgnoresForm(q: Question, s: string)
    ensures IsCorrect(q, TextAnswer(NormalizeTextAnswer(s))) == IsCorrect(q, TextAnswer(s)) || q.TrueFalseQuestion?
  {
    NormalizeIdempotent(s);
  }

  /** The best-score rule of `finishQuiz`: the quiz's entry becomes the new
      score when there was none or the new score is strictly greater. */
  function RecordBest(best: map<string, int>, id: string, score: int): (r: map<string, int>)
    ensures r.Keys == best.Keys + {id}
    ensures r[id] == if id in best && best[id] >= score then best[id] else score
    ensures forall k :: k in best && k != id ==> r[k] == best[k]
    ensures forall k :: k in best ==> r[k] >= best[k]
  {
    if id !in best || score > best[id] then best[id := score] else best
  }

  /** The map changes exactly when there was no best or the score beats it. */
  lemma RecordBestChangesIff(best: map<string, int>, id: string, score: int)
    ensures RecordBest(best, id, score) != best <==> (id !in best || score > best[id])
  {
    if id in best && score > best[id] {
      assert RecordBest(best, id, score)[id] != best[id];
    }
  }

  /** Recording the same score twice records nothing the second time: a
      repeated finish of a quiz leaves the best scores as the first left them. */
  lemma RecordBestIdempotent(best: map<string, int>, id: string, score: int)
    ensures RecordBest(RecordBest(best, id, score), id, score) == RecordBest(best, id, score)
  {
    var once := RecordBest(best, id, score);
    RecordBestChangesIff(once, id, score);
  }

  function QuizId(q: Quiz): string { q.id }

  /** `quizzes.find((x) => x.id === id)`. */
  function FindQuiz(quizzes: seq<Quiz>, id: string): (r: Option<Quiz>)
    ensures r.Some? ==> r.value in quizzes && r.value.id == id
    ensures r.Some? ==> exists k :: 0 <= k < |quizzes| && quizzes[k] == r.value
                          && forall j :: 0 <= j < k ==> quizzes[j].id != id
    ensures r.None? ==> forall q :: q in quizzes ==> q.id != id
  {
    match FirstIndex(quizzes, QuizId, id)
      case Some(k) => Some(quizzes[k])
      case None => None
  }

  /** Every quiz of the catalog has a question. */
  ghost predicate HasQuestions(quizzes: seq<Quiz>) {
    forall q :: q in quizzes ==> |q.questions| >= 1
  }

  datatype StartOutcome = Started | QuizNotFound

  /** What `checkAnswer` did: ignored a second answer, judged the answer, or
      stopped (with the lock set) because no quiz was running. */
  datatype CheckOutcome = AlreadyLocked | Judged(correct: bool) | NoCurrentQuiz

  /** The module state of the quiz page. */
  class QuizSession {
    const quizzes: seq<Quiz>
    const store: Store
    var currentQuiz: Option<Quiz>
    var qIndex: nat
    var score: nat
    var locked: bool
    var bestScores: map<string, int>

    /** The index stays on a question of the running quiz, the score counts
        at most the questions passed plus the one answered, and the best
        scores in memory are the ones the store holds. */
    ghost predicate Valid()
      reads this, store
    {
      && HasQuestions(quizzes)
      && DecodeBestScores(store.Get(BestScoresKey)) == bestScores
      && (currentQuiz.Some? ==> qIndex < |currentQuiz.value.questions|)
      && score <= qIndex + (if locked then 1 else 0)
    }

    /** Page start: the catalog as loaded, the best scores read from the
        store, no quiz running. */
    constructor (store: Store, catalog: seq<Quiz>)
      requires HasQuestions(catalog)
      ensures Valid()
      ensures this.store == store && quizzes == catalog
      ensures bestScores == DecodeBestScores(store.Get(BestScoresKey))
      ensures currentQuiz == None && qIndex == 0 && score == 0 && !locked
    {
      var loaded := store.LoadBestScores();
      this.store := store;
      quizzes := catalog;
      currentQuiz := None;
      qIndex := 0;
      score := 0;
      locked := false;
      bestScores := loaded;
    }

    /** The reset at the top of `renderQuestion`. */
    method RenderQuestion()
      requires currentQuiz.Some?
      modifies this`locked
      ensures !locked
    {
      locked := false;
    }

    /** `startQuiz` for the quiz chosen in the select; the lookup result is
        stored even when it fails. */
    method StartQuiz(id: string) returns (outcome: StartOutcome)
      requires Valid()
      modifies this
      ensures Valid()
      ensures currentQuiz == FindQuiz(quizzes, id)
      ensures bestScores == old(bestScores)
      ensures currentQuiz.None? ==>
                outcome == QuizNotFound && qIndex == old(qIndex) && score == old(score) && locked == old(locked)
      ensures currentQuiz.Some? ==> outcome == Started && qIndex == 0 && score == 0 && !locked
    {
      currentQuiz := FindQuiz(quizzes, id);
      if currentQuiz.None? {
        return QuizNotFound;
      }
      qIndex := 0;
      score := 0;
      locked := false;
      RenderQuestion();
      outcome := Started;
    }

    /** `checkAnswer`. */
    method CheckAnswer(answer: Answer) returns (outcome: CheckOutcome)
      requires Valid()
      modifies this
      ensures Valid()
      ensures currentQuiz == old(currentQuiz) && qIndex == old(qIndex) && bestScores == old(bestScores)
      ensures old(locked) ==> outcome == AlreadyLocked && locked && score == old(score)
      ensures !old(locked) && currentQuiz.None? ==> outcome == NoCurrentQuiz && locked && score == old(score)
      ensures !old(locked) && currentQuiz.Some? ==>
                var correct := IsCorrect(currentQuiz.value.questions[qIndex], answer);
                outcome == Judged(correct) && locked && score == old(score) + (if correct then 1 else 0)
    {
      if locked {
        return AlreadyLocked;
      }
      locked := true;
      if currentQuiz.None? {
        // the source reads a question of a missing quiz here and throws
        return NoCurrentQuiz;
      }
      var q := currentQuiz.value.questions[qIndex];
      var correct := IsCorrect(q, answer);
      if correct {
        score := score + 1;
      }
      outcome := Judged(correct);
    }

    /** The best-score part of `finishQuiz`: record and save only a new
        best. */
    method FinishQuiz()
      requires currentQuiz.Some?
      modifies this`bestScores, store
      ensures bestScores == RecordBest(old(bestScores), currentQuiz.value.id, score)
      ensures store.items ==
                if bestScores != old(bestScores)
                then old(store.items)[BestScoresKey := Doc(ScoresDoc(bestScores))]
                else old(store.items)
      ensures old(DecodeBestScores(store.Get(BestScoresKey))) == old(bestScores) ==>
                DecodeBestScores(store.Get(BestScoresKey)) == bestScores
    {
      var id := currentQuiz.value.id;
      RecordBestChangesIff(bestScores, id, score);
      if id !in bestScores || score > bestScores[id] {
        bestScores := bestScores[id := score];
        store.SaveBestScores(bestScores);
      }
    }

    /** `nextQuestion`: the next question while there is one, otherwise the
        end of the quiz, whose final score is at most its question count. */
    method NextQuestion()
      requires Valid()
      modifies this, store
      ensures Valid()
      ensures var before, after := old(DecodeBestScores(store.Get(BestScoresKey))), DecodeBestScores(store.Get(BestScoresKey));
        forall k :: k in before ==> k in after && after[k] >= before[k]
      ensures currentQuiz == old(currentQuiz) && score == old(score)
      ensures currentQuiz.None? ==>
                qIndex == old(qIndex) && locked == old(locked) && bestScores == old(bestScores)
                && store.items == old(store.items)
      ensures currentQuiz.Some? && old(qIndex) < |currentQuiz.value.questions| - 1 ==>
                qIndex == old(qIndex) + 1 && !locked && bestScores == old(bestScores)
                && store.items == old(store.items)
      ensures currentQuiz.Some? && old(qIndex) == |currentQuiz.value.questions| - 1 ==>
                && qIndex == old(qIndex) && locked == old(locked)
                && bestScores == RecordBest(old(bestScores), currentQuiz.value.id, score)
                && store.items == (if bestScores != old(bestScores)
                                   then old(store.items)[BestScoresKey := Doc(ScoresDoc(bestScores))]
                                   else old(store.items))
                && score <= |currentQuiz.value.questions|
    {
      if currentQuiz.None? {
        return;
      }
      if qIndex < |currentQuiz.value.questions| - 1 {
        qIndex := qIndex + 1;
        RenderQuestion();
      } else {
        FinishQuiz();
      }
    }
  }

  // ---------------------------------------------------------------------
  // Scenarios
  // ---------------------------------------------------------------------

  // Small steps of the text-answer scenario, each on one literal so the
  // verifier evaluates only that stage.

  lemma LowerShoutedParis()
    ensures Lower("  PARIS") == "  paris"
  {
  }

  lemma TrimStartShoutedParis()
    ensures TrimStart("  paris") == "paris"
  {
    assert "  paris"[1..] == " paris" && " paris"[1..] == "paris";
  }

  lemma LowerCapitalParis()
    ensures Lower("Paris") == "paris"
  {
  }

  lemma ParisIsNormal()
    ensures NormalizeTextAnswer("paris") == "paris"
  {
    assert IsNormalized("paris");
    NormalizeFixesNormalized("paris");
  }

  lemma NormalizeShoutedParis(s: string)
    requires s == "  PARIS"
    ensures NormalizeTextAnswer(s) == "paris"
  {
    LowerShoutedParis();
    TrimStartShoutedParis();
    ParisIsNormal();
    assert Trim(Lower(s)) == Trim(Lower("paris"));
  }

  lemma NormalizeCapitalParis(s: string)
    requires s == "Paris"
    ensures NormalizeTextAnswer(s) == "paris"
  {
    LowerCapitalParis();
    ParisIsNormal();
    assert Trim(Lower(s)) == Trim(Lower("paris"));
  }

  /** Case and surrounding white space do not matter to a text answer. */
  lemma ParisScenario()
    ensures IsCorrect(TextQuestion("Capital of France?", Some(["Paris", "paris "])), TextAnswer("  PARIS"))
  {
    NormalizeShoutedParis("  PARIS");
    NormalizeCapitalParis("Paris");
    assert NormalizeAll(["Paris", "paris "])[0] == "paris";
  }

  /** Answering `false` to a question whose answer is true scores nothing,
      and a second answer before the next question is ignored. */
  method TrueFalseScenario() returns (first: CheckOutcome, second: CheckOutcome, finalScore: nat)
    ensures first == Judged(false) && second == AlreadyLocked && finalScore == 0
  {
    var store := new Store(map[]);
    var session := new QuizSession(store, [Quiz("html", "HTML", [TrueFalseQuestion("<p> is a paragraph", true)])]);
    var started := session.StartQuiz("html");
    first := session.CheckAnswer(ChoiceAnswer(false));
    second := session.CheckAnswer(ChoiceAnswer(true));
    finalScore := session.score;
  }

  /** Starting a quiz the catalog does not hold is rejected and leaves no
      quiz running. */
  method UnknownQuizScenario() returns (outcome: StartOutcome, running: bool)
    ensures outcome == QuizNotFound && !running
  {
    var store := new Store(map[]);
    var session := new QuizSession(store, [Quiz("html", "HTML", [TrueFalseQuestion("<p> is a paragraph", true)])]);
    outcome := session.StartQuiz("css");
    running := session.currentQuiz.Some?;
  }
}
