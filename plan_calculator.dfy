/**
 * The local study-plan generator: from subjects with missed-class counts, a
 * daily time budget and the selected weekdays, it builds a prioritised weekly
 * schedule with session lengths, rotating study techniques and tips, an
 * estimate of the weeks needed and up to four weekly milestones.
 */
module PlanCalculator {
  import opened Wrappers
  import opened Text

  datatype Subject = Subject(id: int, name: string, missedClasses: int)

  datatype Priority = Alta | Media | Baixa

  datatype Technique = Technique(name: string, desc: string)

  /** One study session of a day. */
  datatype TopicBlock = TopicBlock(
    subject: string,
    subtopic: string,
    duration: string,
    priority: Priority,
    tips: string,
    technique: string)

  datatype DayPlan = DayPlan(day: string, topics: seq<TopicBlock>)

  /**
   * The value of `estimatedWeeks`. With no study day selected the source divides
   * by zero, so the number is then JavaScript's Infinity or NaN.
   */
  datatype WeekEstimate = Weeks(count: int) | PositiveInfinity | NaN

  datatype Summary = Summary(
    totalClasses: int,
    totalSubjects: nat,
    hoursPerDay: real,
    daysPerWeek: nat,
    estimatedWeeks: WeekEstimate)

  datatype StudyPlan = StudyPlan(
    title: string,
    description: string,
    summary: Summary,
    weeklySchedule: seq<DayPlan>,
    motivationalQuote: string,
    generalTips: seq<string>,
    weeklyMilestones: seq<string>)

  /** Minutes of study one missed class is worth. */
  const MinutesPerClass: nat := 45
  /** A further session is started only while at least this many minutes remain. */
  const MinSessionBudget: nat := 30
  const MaxSubjectsPerDay: nat := 3
  const MaxMilestones: nat := 4
  const GeneralTipCount: nat := 6

  const DayNames: seq<string> :=
    ["Segunda-feira", "Terça-feira", "Quarta-feira", "Quinta-feira", "Sexta-feira", "Sábado", "Domingo"]

  const StudyTechniques: seq<Technique> := [
    Technique("Pomodoro", "25min foco + 5min pausa"),
    Technique("Feynman", "Ensine para aprender"),
    Technique("Active Recall", "Teste sua memoria"),
    Technique("Espacamento", "Revise em intervalos"),
    Technique("Mapeamento Mental", "Conecte conceitos"),
    Technique("Leitura Ativa", "Anote enquanto le"),
    Technique("Metodo Cornell", "Divida suas notas"),
    Technique("Chunking", "Divida em partes menores"),
    Technique("Elaboracao", "Conecte com o que sabe"),
    Technique("Interleaving", "Misture topicos")
  ]

  const StudyTips: seq<string> := [
    "Comece pelo mais dificil quando sua energia esta alta.",
    "Faca resumos escritos a mao para melhor retencao.",
    "Explique o conteudo em voz alta como se ensinasse alguem.",
    "Use flashcards para conceitos-chave e formulas.",
    "Faca exercicios praticos apos cada sessao de teoria.",
    "Revise o conteudo do dia anterior antes de comecar.",
    "Alterne entre materias para manter o foco.",
    "Defina metas especificas para cada sessao de estudo.",
    "Elimine distracoes: celular no modo aviao.",
    "Faca pausas ativas: caminhe, alongue-se.",
    "Estude no mesmo horario todos os dias para criar habito.",
    "Use cores diferentes para destacar tipos de informacao.",
    "Crie acronimos ou frases para memorizar listas.",
    "Associe conceitos novos com imagens mentais.",
    "Faca perguntas sobre o material antes de estudar.",
    "Teste-se antes de olhar as respostas.",
    "Reescreva suas anotacoes com suas proprias palavras.",
    "Ensine o conteudo para um colega ou familiar.",
    "Use diagramas e graficos para visualizar conceitos.",
    "Grave audio explicando o conteudo e ouca depois.",
    "Estude em blocos de 45-50 minutos com pausas.",
    "Revise erros de provas anteriores antes de estudar.",
    "Conecte o conteudo com situacoes do dia a dia.",
    "Use apps de flashcard como Anki para revisao espacada.",
    "Faca simulados cronometrados para treinar pressao.",
    "Identifique seu horario de pico de concentracao.",
    "Varie o local de estudo para melhorar memorizacao.",
    "Use a tecnica do palacio da memoria para listas.",
    "Leia os titulos e subtitulos antes de ler o texto.",
    "Faca perguntas \"por que\" e \"como\" sobre o conteudo.",
    "Crie mapas conceituais conectando ideias principais.",
    "Use post-its para revisar enquanto anda pela casa.",
    "Pratique a escrita ativa: resuma cada paragrafo.",
    "Durma apos estudar para consolidar a memoria.",
    "Use a tecnica SQ3R: Survey, Question, Read, Recite, Review.",
    "Mantenha um diario de estudos para acompanhar progresso."
  ]

  const GeneralTipsCatalogue: seq<string> := [
    "Mantenha-se hidratado - beba agua a cada hora de estudo.",
    "Durma 7-8 horas - o sono consolida a memoria.",
    "Defina metas SMART: Especificas, Mensuraveis e com Prazo.",
    "Desative notificacoes durante os blocos de estudo.",
    "Exercicio fisico melhora a concentracao e memoria.",
    "Alimentacao leve ajuda na concentracao.",
    "Revise seu progresso no fim de cada dia.",
    "Musica instrumental pode ajudar na concentracao.",
    "A luz natural melhora o foco e o humor.",
    "Evite estudar deitado - associe a cama ao descanso.",
    "Organize seu espaco de estudo antes de comecar.",
    "Tenha todos os materiais prontos antes de iniciar.",
    "Use o metodo 2-minutos: se leva 2min, faca agora.",
    "Celebre pequenas conquistas para manter motivacao.",
    "Faca alongamentos a cada hora de estudo.",
    "Evite cafeina excessiva - pode atrapalhar o sono.",
    "Pratique respiracao profunda antes de comecar.",
    "Use apps de bloqueio de sites durante o estudo.",
    "Estude em grupo ocasionalmente para novas perspectivas.",
    "Tenha um parceiro de estudos para accountability.",
    "Recompense-se apos completar sessoes dificeis.",
    "Planeje seu dia na noite anterior.",
    "Identifique e elimine seus maiores desperdicadores de tempo.",
    "Use o principio 80/20: foque no que da mais resultado."
  ]

  const MotivationalQuotes: seq<string> := [
    "\"O sucesso e a soma de pequenos esforcos repetidos dia apos dia.\" - Robert Collier",
    "\"A educacao e a arma mais poderosa que voce pode usar para mudar o mundo.\" - Nelson Mandela",
    "\"O unico lugar onde o sucesso vem antes do trabalho e no dicionario.\" - Vidal Sassoon",
    "\"Nao importa quao devagar voce va, desde que nao pare.\" - Confucio",
    "\"A persistencia e o caminho do exito.\" - Charles Chaplin",
    "\"Estudar e como remar contra a correnteza: parar e retroceder.\" - Proverbio Chines",
    "\"O conhecimento e a unica coisa que ninguem pode tirar de voce.\" - B.B. King",
    "\"Voce nao precisa ser perfeito para comecar, mas precisa comecar para ser excelente.\" - Zig Ziglar",
    "\"O futuro pertence aqueles que acreditam na beleza de seus sonhos.\" - Eleanor Roosevelt",
    "\"Cada dia e uma nova oportunidade de aprender algo novo.\" - Anonimo",
    "\"A disciplina e a ponte entre metas e realizacoes.\" - Jim Rohn",
    "\"O segredo para avancar e comecar.\" - Mark Twain",
    "\"Nao espere por oportunidades, crie-as.\" - George Bernard Shaw",
    "\"A unica maneira de fazer um otimo trabalho e amar o que voce faz.\" - Steve Jobs",
    "\"Acredite que voce pode e voce ja esta no meio do caminho.\" - Theodore Roosevelt",
    "\"O sucesso nao e definitivo, o fracasso nao e fatal: o que conta e a coragem de continuar.\" - Winston Churchill",
    "\"A mente que se abre a uma nova ideia jamais volta ao seu tamanho original.\" - Albert Einstein",
    "\"Educacao nao e preparacao para a vida; educacao e a propria vida.\" - John Dewey",
    "\"O maior inimigo do conhecimento nao e a ignorancia, e a ilusao do conhecimento.\" - Stephen Hawking",
    "\"Voce e o que voce faz repetidamente. Excelencia, portanto, nao e um ato, mas um habito.\" - Aristoteles",
    "\"A diferenca entre o ordinario e o extraordinario e aquele pequeno extra.\" - Jimmy Johnson",
    "\"Nunca e tarde demais para ser o que voce poderia ter sido.\" - George Eliot",
    "\"O sucesso e ir de fracasso em fracasso sem perder o entusiasmo.\" - Winston Churchill",
    "\"A melhor maneira de prever o futuro e cria-lo.\" - Peter Drucker",
    "\"Conhecimento nao e poder. Conhecimento aplicado e poder.\" - Jim Kwik"
  ]

  /**
   * The rotating texts of a plan: the study techniques and tips, the general
   * tips the plan starts with, and the motivational quotes.
   */
  datatype Catalogue = Catalogue(
    techniques: seq<Technique>,
    tips: seq<string>,
    generalTips: seq<string>,
    quotes: seq<string>)

  /** What the generator needs of its tables: something to rotate through and six general tips. */
  predicate ValidCatalogue(cat: Catalogue) {
    |cat.techniques| > 0 && |cat.tips| > 0 && |cat.generalTips| >= GeneralTipCount
  }

  /** The tables of `planCalculator.ts`. */
  const SourceCatalogue: Catalogue :=
    Catalogue(StudyTechniques, StudyTips, GeneralTipsCatalogue, MotivationalQuotes)

  /** The tables of `planCalculator.ts` are fit for the generator. */
  lemma SourceCatalogueIsValid()
    ensures ValidCatalogue(SourceCatalogue)
  {
    TechniqueCount();
    TipCount();
    GeneralTipCountIs24();
  }

  /** The source's tables hold 10 techniques, 36 tips, 24 general tips and 25 quotes. */
  lemma TechniqueCount() ensures |StudyTechniques| == 10 {}
  lemma TipCount() ensures |StudyTips| == 36 {}
  lemma GeneralTipCountIs24() ensures |GeneralTipsCatalogue| == 24 {}
  lemma QuoteCount() ensures |MotivationalQuotes| == 25 {}

  function Min(a: int, b: int): int { if a <= b then a else b }

  function Max(a: int, b: int): int { if a >= b then a else b }

  function PriorityLabel(p: Priority): string {
    match p
    case Alta => "Alta"
    case Media => "Média"
    case Baixa => "Baixa"
  }

  /** Alta is more urgent than Média, which is more urgent than Baixa. */
  function Urgency(p: Priority): nat {
    match p
    case Alta => 2
    case Media => 1
    case Baixa => 0
  }

  // ---------------------------------------------------------------------------
  // formatDuration and its inverse

  /** `formatDuration`: "{m}min" below an hour, else "{h}h" or "{h}h {m}min". */
  function FormatDuration(minutes: nat): string {
    if minutes < 60 then NatToString(minutes) + "min"
    else
      var hours := minutes / 60;
      var mins := minutes % 60;
      if mins > 0 then NatToString(hours) + "h " + NatToString(mins) + "min"
      else NatToString(hours) + "h"
  }

  /** Reads a duration text of one of the three shapes back into minutes. */
  function ParseDuration(s: string): Option<nat> {
    var k := LeadingDigits(s);
    if k == 0 then None else DurationUnit(DigitsValue(s[..k]), s[k..])
  }

  /** What follows the leading number `v`: "min", "h", or "h " and a number of minutes. */
  function DurationUnit(v: nat, rest: string): Option<nat> {
    if rest == "min" then Some(v)
    else if rest == "h" then Some(60 * v)
    else if |rest| > 2 && rest[..2] == "h " then MinutesAfterHours(v, rest[2..])
    else None
  }

  function MinutesAfterHours(hours: nat, t: string): Option<nat> {
    var k := LeadingDigits(t);
    if k > 0 && t[k..] == "min" then Some(60 * hours + DigitsValue(t[..k])) else None
  }

  /** Splitting a rendered number off the front of a text. */
  lemma {:induction false} NumberThenRest(n: nat, rest: string)
    requires rest == [] || !IsDigit(rest[0])
    ensures var s := NatToString(n) + rest;
            var k := LeadingDigits(s);
            k == |NatToString(n)| && k > 0 && s[..k] == NatToString(n) && s[k..] == rest
            && DigitsValue(s[..k]) == n
  {
    LeadingDigitsOfNumber(n, rest);
    var s := NatToString(n) + rest;
    assert s[..|NatToString(n)|] == NatToString(n);
    assert s[|NatToString(n)|..] == rest;
    DigitsValueOfNatToString(n);
  }

  /** Every duration text reads back as the minutes it was made from. */
  lemma DurationRoundTrip(minutes: nat)
    ensures ParseDuration(FormatDuration(minutes)) == Some(minutes)
  {
    var hours, mins := minutes / 60, minutes % 60;
    if minutes < 60 {
      ParseMinutesOnly(minutes);
    } else if mins > 0 {
      ParseHoursAndMinutes(hours, mins);
      assert FormatDuration(minutes) == NatToString(hours) + "h " + NatToString(mins) + "min";
    } else {
      ParseHoursOnly(hours);
    }
  }

  lemma ParseNumberThen(n: nat, rest: string)
    requires rest == [] || !IsDigit(rest[0])
    ensures ParseDuration(NatToString(n) + rest) == DurationUnit(n, rest)
  {
    NumberThenRest(n, rest);
  }

  lemma ParseMinutesOnly(m: nat)
    ensures ParseDuration(NatToString(m) + "min") == Some(m)
  {
    ParseNumberThen(m, "min");
  }

  lemma ParseHoursOnly(h: nat)
    ensures ParseDuration(NatToString(h) + "h") == Some(60 * h)
  {
    ParseNumberThen(h, "h");
  }

  lemma ParseHoursAndMinutes(h: nat, m: nat)
    ensures ParseDuration(NatToString(h) + "h " + NatToString(m) + "min") == Some(60 * h + m)
  {
    var rest := "h " + (NatToString(m) + "min");
    ConcatRight(NatToString(h), "h ", NatToString(m), "min");
    ParseNumberThen(h, rest);
    UnitHoursAndMinutes(h, m);
  }

  lemma ConcatRight(a: string, b: string, c: string, d: string)
    ensures a + b + c + d == a + (b + (c + d))
  {
  }

  lemma UnitHoursAndMinutes(h: nat, m: nat)
    ensures DurationUnit(h, "h " + (NatToString(m) + "min")) == Some(60 * h + m)
  {
    var tail := NatToString(m) + "min";
    var rest := "h " + tail;
    assert rest[0] == 'h' && |rest| > 2;
    assert rest[..2] == "h " && rest[2..] == tail;
    NumberThenRest(m, "min");
  }

  // ---------------------------------------------------------------------------
  // getPriority

  /** `getPriority`: the ratio of a subject's missed classes to the run's maximum, bucketed. */
  function GetPriority(classesLeft: int, maxClasses: int): Priority
    requires maxClasses > 0
  {
    var ratio := classesLeft as real / maxClasses as real;
    if ratio > 0.6 then Alta
    else if ratio > 0.3 then Media
    else Baixa
  }

  /** The buckets in integer terms; a ratio of exactly 0.6 or 0.3 falls to the lower bucket. */
  lemma PriorityThresholds(classesLeft: int, maxClasses: int)
    requires maxClasses > 0
    ensures GetPriority(classesLeft, maxClasses) == Alta <==> 10 * classesLeft > 6 * maxClasses
    ensures GetPriority(classesLeft, maxClasses) == Media
            <==> (3 * maxClasses < 10 * classesLeft <= 6 * maxClasses)
    ensures GetPriority(classesLeft, maxClasses) == Baixa <==> 10 * classesLeft <= 3 * maxClasses
  {
    var c, m := classesLeft as real, maxClasses as real;
    var ratio := c / m;
    assert ratio * m == c;
    RatioAbove(c, m, 0.6);
    RatioAbove(c, m, 0.3);
  }

  lemma RatioAbove(c: real, m: real, bound: real)
    requires m > 0.0
    ensures c / m > bound <==> c > bound * m
  {
    var ratio := c / m;
    assert ratio * m == c;
    if ratio > bound {
      assert (ratio - bound) * m > 0.0;
    } else {
      assert (bound - ratio) * m >= 0.0;
    }
  }

  /** More missed classes never give a less urgent priority. */
  lemma PriorityMonotone(fewer: int, more: int, maxClasses: int)
    requires maxClasses > 0 && fewer <= more
    ensures Urgency(GetPriority(fewer, maxClasses)) <= Urgency(GetPriority(more, maxClasses))
  {
    PriorityThresholds(fewer, maxClasses);
    PriorityThresholds(more, maxClasses);
  }

  // ---------------------------------------------------------------------------
  // Filtering, totals, maximum, ordering

  /** `subjects.filter(s => s.name.trim() !== '')`. */
  function ValidSubjects(subjects: seq<Subject>): (r: seq<Subject>)
    ensures |r| <= |subjects|
    ensures forall x :: x in r <==> x in subjects && !IsBlank(x.name)
  {
    if subjects == [] then []
    else if IsBlank(subjects[0].name) then ValidSubjects(subjects[1..])
    else [subjects[0]] + ValidSubjects(subjects[1..])
  }

  /**
   * The filter keeps the named rows in their order and with their repetitions:
   * those of `a + b` are those of `a` followed by those of `b`.
   */
  lemma {:induction false} ValidSubjectsAppend(a: seq<Subject>, b: seq<Subject>)
    ensures ValidSubjects(a + b) == ValidSubjects(a) + ValidSubjects(b)
  {
    if a == [] {
      assert a + b == b;
    } else {
      assert (a + b)[0] == a[0] && (a + b)[1..] == a[1..] + b;
      ValidSubjectsAppend(a[1..], b);
      if !IsBlank(a[0].name) {
        assert [a[0]] + ValidSubjects(a[1..]) + ValidSubjects(b) == [a[0]] + (ValidSubjects(a[1..]) + ValidSubjects(b));
      }
    }
  }

  /** A single row stays exactly when it is named. */
  lemma ValidSubjectsSingle(x: Subject)
    ensures ValidSubjects([x]) == if IsBlank(x.name) then [] else [x]
  {
    assert [x][1..] == [];
  }

  /** Keeping the named subjects of a list that only has named ones changes nothing. */
  lemma {:induction false} ValidSubjectsIdempotent(subjects: seq<Subject>)
    ensures ValidSubjects(ValidSubjects(subjects)) == ValidSubjects(subjects)
  {
    if subjects != [] {
      ValidSubjectsIdempotent(subjects[1..]);
      if !IsBlank(subjects[0].name) {
        var v := [subjects[0]] + ValidSubjects(subjects[1..]);
        assert v[1..] == ValidSubjects(subjects[1..]);
      }
    }
  }

  /** The sum of `missedClasses`. */
  function SumMissed(subjects: seq<Subject>): int {
    if subjects == [] then 0 else subjects[0].missedClasses + SumMissed(subjects[1..])
  }

  lemma {:induction false} SumMissedAppend(a: seq<Subject>, b: seq<Subject>)
    ensures SumMissed(a + b) == SumMissed(a) + SumMissed(b)
  {
    if a == [] {
      assert a + b == b;
    } else {
      assert (a + b)[0] == a[0];
      assert (a + b)[1..] == a[1..] + b;
      SumMissedAppend(a[1..], b);
    }
  }

  /** `Math.max(...missed, 1)`: the largest missed-class count, and at least 1. */
  function MaxClasses(subjects: seq<Subject>): (m: int)
    ensures m >= 1
    ensures forall i :: 0 <= i < |subjects| ==> subjects[i].missedClasses <= m
    ensures m == 1 || exists i :: 0 <= i < |subjects| && subjects[i].missedClasses == m
  {
    if subjects == [] then 1
    else
      var rest := MaxClasses(subjects[1..]);
      assert forall i :: 1 <= i < |subjects| ==> subjects[i] == subjects[1..][i - 1];
      Max(subjects[0].missedClasses, rest)
  }

  /** Descending by `missedClasses`. */
  predicate SortedDesc(s: seq<Subject>) {
    forall i, j :: 0 <= i < j < |s| ==> s[i].missedClasses >= s[j].missedClasses
  }

  /** The subjects with exactly `count` missed classes, in their order. */
  function WithMissed(s: seq<Subject>, count: int): seq<Subject> {
    if s == [] then []
    else if s[0].missedClasses == count then [s[0]] + WithMissed(s[1..], count)
    else WithMissed(s[1..], count)
  }

  /** Places `x` before the first subject that has no more missed classes than it. */
  function InsertDesc(x: Subject, sorted: seq<Subject>): (r: seq<Subject>)
    requires SortedDesc(sorted)
    ensures |r| == |sorted| + 1
    ensures forall y :: y in r ==> y == x || y in sorted
    ensures SortedDesc(r)
    ensures multiset(r) == multiset(sorted) + multiset{x}
  {
    if sorted == [] || sorted[0].missedClasses <= x.missedClasses then
      [x] + sorted
    else
      var tail := InsertDesc(x, sorted[1..]);
      InsertBehindHead(x, sorted, tail);
      [sorted[0]] + tail
  }

  lemma InsertBehindHead(x: Subject, sorted: seq<Subject>, tail: seq<Subject>)
    requires SortedDesc(sorted) && sorted != [] && sorted[0].missedClasses > x.missedClasses
    requires SortedDesc(tail)
    requires forall y :: y in tail ==> y == x || y in sorted[1..]
    requires multiset(tail) == multiset(sorted[1..]) + multiset{x}
    ensures SortedDesc([sorted[0]] + tail)
    ensures multiset([sorted[0]] + tail) == multiset(sorted) + multiset{x}
  {
    assert sorted == [sorted[0]] + sorted[1..];
    var r := [sorted[0]] + tail;
    forall j | 1 <= j < |r| ensures r[0].missedClasses >= r[j].missedClasses {
      assert r[j] == tail[j - 1];
      assert r[j] in tail;
    }
  }

  /**
   * `[...validSubjects].sort((a, b) => b.missedClasses - a.missedClasses)`: the
   * stable descending sort (insertion sort; JavaScript's sort is stable).
   */
  function SortByMissedDesc(s: seq<Subject>): (r: seq<Subject>)
    ensures SortedDesc(r)
    ensures multiset(r) == multiset(s) && |r| == |s|
  {
    if s == [] then []
    else
      assert s == [s[0]] + s[1..];
      InsertDesc(s[0], SortByMissedDesc(s[1..]))
  }

  lemma {:induction false} WithMissedInsert(x: Subject, sorted: seq<Subject>, count: int)
    requires SortedDesc(sorted)
    ensures WithMissed(InsertDesc(x, sorted), count)
            == if x.missedClasses == count then [x] + WithMissed(sorted, count)
               else WithMissed(sorted, count)
  {
    if sorted == [] || sorted[0].missedClasses <= x.missedClasses {
      var r := [x] + sorted;
      assert r[1..] == sorted;
      if sorted != [] && x.missedClasses == count && sorted[0].missedClasses == count {
        assert WithMissed(r, count) == [x] + WithMissed(sorted, count);
      }
    } else {
      WithMissedInsert(x, sorted[1..], count);
      var r := [sorted[0]] + InsertDesc(x, sorted[1..]);
      assert r[1..] == InsertDesc(x, sorted[1..]);
    }
  }

  /**
   * The sort is stable: for every count, the subjects with that count appear in
   * the result in the same order as in the input.
   */
  lemma {:induction false} SortIsStable(s: seq<Subject>, count: int)
    ensures WithMissed(SortByMissedDesc(s), count) == WithMissed(s, count)
  {
    if s != [] {
      SortIsStable(s[1..], count);
      WithMissedInsert(s[0], SortByMissedDesc(s[1..]), count);
    }
  }

  // ---------------------------------------------------------------------------
  // Estimates

  /** `Math.ceil(a / b)` for a positive divisor. */
  function CeilDiv(a: int, b: int): (q: int)
    requires b > 0
    ensures (q - 1) * b < a <= q * b
  {
    -((-a) / b)
  }

  /** `weeksNeeded`: ceil(ceil(45 * total / minutesPerDay) / |studyDays|), at least 1. */
  function EstimateWeeks(totalMissed: int, minutesPerDay: nat, dayCount: nat): WeekEstimate
    requires minutesPerDay > 0
  {
    var daysNeeded := CeilDiv(totalMissed * MinutesPerClass, minutesPerDay);
    if dayCount == 0 then
      // ceil(daysNeeded / 0) is Infinity, NaN or -Infinity; Math.max(1, -Infinity) is 1
      if daysNeeded > 0 then PositiveInfinity else if daysNeeded == 0 then NaN else Weeks(1)
    else Weeks(Max(1, CeilDiv(daysNeeded, dayCount)))
  }

  /**
   * With at least one study day the estimate is the fewest weeks, and at least one,
   * whose study time covers 45 minutes per missed class.
   */
  lemma EstimateIsFewestWeeks(totalMissed: int, minutesPerDay: nat, dayCount: nat)
    requires minutesPerDay > 0 && dayCount > 0
    ensures EstimateWeeks(totalMissed, minutesPerDay, dayCount).Weeks?
    ensures var w := EstimateWeeks(totalMissed, minutesPerDay, dayCount).count;
            w >= 1
            && totalMissed * MinutesPerClass <= w * dayCount * minutesPerDay
            && (w == 1 || (w - 1) * dayCount * minutesPerDay < totalMissed * MinutesPerClass)
  {
    var need := totalMissed * MinutesPerClass;
    var days := CeilDiv(need, minutesPerDay);
    var weeks := CeilDiv(days, dayCount);
    var w := Max(1, weeks);
    assert w * dayCount >= days;
    MulMonotone(days, w * dayCount, minutesPerDay);
    assert w * dayCount * minutesPerDay == (w * dayCount) * minutesPerDay;
    if w > 1 {
      assert (w - 1) * dayCount <= days - 1;
      MulMonotone((w - 1) * dayCount, days - 1, minutesPerDay);
      assert (days - 1) * minutesPerDay < need;
    }
  }

  lemma MulMonotone(a: int, b: int, c: nat)
    requires a <= b
    ensures a * c <= b * c
  {
  }

  /**
   * With no study day the estimate is JavaScript's Infinity when classes are
   * missed, NaN when the days needed are 0 (or -0), and 1 below that.
   */
  lemma EstimateWithoutStudyDays(totalMissed: int, minutesPerDay: nat)
    requires minutesPerDay > 0
    ensures EstimateWeeks(totalMissed, minutesPerDay, 0)
            == if totalMissed > 0 then PositiveInfinity
               else if totalMissed * MinutesPerClass > -(minutesPerDay as int) then NaN
               else Weeks(1)
  {
    var need := totalMissed * MinutesPerClass;
    var days := CeilDiv(need, minutesPerDay);
    if totalMissed > 0 {
      assert need > 0;
    } else if need > -(minutesPerDay as int) {
      assert days * minutesPerDay >= need > -(minutesPerDay as int);
      assert (days - 1) * minutesPerDay < need <= 0;
      if days < 0 { MulMonotone(days, -1, minutesPerDay); }
      if days > 0 { MulMonotone(1, days, minutesPerDay); }
    } else {
      assert (days - 1) * minutesPerDay < need <= -(minutesPerDay as int);
      if days >= 0 { MulMonotone(-1, days - 1, minutesPerDay); }
    }
  }

  // ---------------------------------------------------------------------------
  // Allocation of one day

  /** `Math.min(sortedSubjects.length, 3)`. */
  function SubjectsToday(n: nat): nat {
    Min(n, MaxSubjectsPerDay)
  }

  /** `Math.floor(minutesPerDay / subjectsToday)`. */
  function MinutesPerSubject(minutesPerDay: nat, n: nat): nat
    requires n > 0
  {
    minutesPerDay / SubjectsToday(n)
  }

  /**
   * The first slot from `i` on that the day loop does not fill: past the last
   * subject, or with less than 30 minutes left after `i` full sessions.
   */
  function FirstUnfilledSlot(minutesPerDay: nat, perSubject: nat, slots: nat, i: nat): (r: nat)
    requires i <= slots
    ensures i <= r <= slots
    decreases slots - i
  {
    if i == slots || minutesPerDay - i * perSubject < MinSessionBudget then i
    else FirstUnfilledSlot(minutesPerDay, perSubject, slots, i + 1)
  }

  /** The number of topics on every included day. */
  function TopicCount(minutesPerDay: nat, n: nat): nat {
    if n == 0 then 0
    else FirstUnfilledSlot(minutesPerDay, MinutesPerSubject(minutesPerDay, n), SubjectsToday(n), 0)
  }

  /** `i` full sessions of `floor(minutesPerDay / slots)` minutes still leave room for one more. */
  lemma SlotFits(minutesPerDay: nat, slots: nat, i: nat)
    requires 1 <= slots <= MaxSubjectsPerDay && i < slots
    ensures (i + 1) * (minutesPerDay / slots) <= minutesPerDay
  {
    var q := minutesPerDay / slots;
    assert q * slots <= minutesPerDay;
    MulMonotone(i + 1, slots, q);
  }

  /** Before slot `i` the remaining budget still holds a full session. */
  lemma SlotIsFull(minutesPerDay: nat, slots: nat, i: nat, remaining: int)
    requires 1 <= slots <= MaxSubjectsPerDay && i < slots
    requires remaining == minutesPerDay - i * (minutesPerDay / slots)
    ensures Min(minutesPerDay / slots, remaining) == minutesPerDay / slots
    ensures remaining - minutesPerDay / slots == minutesPerDay - (i + 1) * (minutesPerDay / slots)
  {
    SlotFits(minutesPerDay, slots, i);
  }

  /** `i % sortedSubjects.length` with `i` below the length is `i`: no subject is repeated. */
  lemma SmallModulus(i: nat, n: nat)
    requires i < n
    ensures i % n == i
  {
  }

  function TechniqueText(t: Technique): string {
    t.name + ": " + t.desc
  }

  function Subtopic(slot: nat, classesToCover: int): string {
    "Módulo " + NatToString(slot + 1) + ": Revisão de " + IntToString(classesToCover)
    + " aula" + (if classesToCover > 1 then "s" else "")
  }

  /**
   * Slot `i` of a day, where `counter` topics were emitted before it in the
   * whole call: the i-th subject of the sorted list, a full session, and the
   * technique and tip the two run-wide counters point at.
   */
  function MakeTopic(cat: Catalogue, sorted: seq<Subject>, i: nat, counter: nat, minutesPerDay: nat,
                     maxClasses: int): TopicBlock
    requires ValidCatalogue(cat) && i < |sorted| && maxClasses > 0
  {
    var perSubject := MinutesPerSubject(minutesPerDay, |sorted|);
    var subject := sorted[i];
    TopicBlock(
      subject.name,
      Subtopic(i, CeilDiv(perSubject, MinutesPerClass)),
      FormatDuration(perSubject),
      GetPriority(subject.missedClasses, maxClasses),
      cat.tips[counter % |cat.tips|],
      TechniqueText(cat.techniques[counter % |cat.techniques|]))
  }

  /** The first `count` topics of a day whose first topic is the `base`-th of the call. */
  function TopicsUpTo(cat: Catalogue, sorted: seq<Subject>, minutesPerDay: nat, maxClasses: int,
                      base: nat, count: nat): seq<TopicBlock>
    requires ValidCatalogue(cat) && maxClasses > 0 && count <= |sorted|
  {
    seq(count, i requires 0 <= i < count => MakeTopic(cat, sorted, i, base + i, minutesPerDay, maxClasses))
  }

  lemma TopicCountBelowSubjects(minutesPerDay: nat, n: nat)
    ensures TopicCount(minutesPerDay, n) <= SubjectsToday(n) <= n
  {
  }

  /** The topic the slot loop builds for slot `i` is `MakeTopic`'s. */
  lemma SlotTopicIsMakeTopic(cat: Catalogue, sorted: seq<Subject>, i: nat, base: nat, minutesPerDay: nat, maxClasses: int,
                             remaining: int, techniqueIndex: nat, tipIndex: nat, topic: TopicBlock)
    requires ValidCatalogue(cat) && maxClasses > 0 && i < SubjectsToday(|sorted|)
    requires 0 <= remaining == minutesPerDay - i * MinutesPerSubject(minutesPerDay, |sorted|)
    requires techniqueIndex == tipIndex == base + i
    requires var perSubject := MinutesPerSubject(minutesPerDay, |sorted|);
             var technique := cat.techniques[techniqueIndex % |cat.techniques|];
             var subject := sorted[i % |sorted|];
             topic == TopicBlock(
               subject.name,
               Subtopic(i, CeilDiv(perSubject, MinutesPerClass)),
               FormatDuration(Min(perSubject, remaining)),
               GetPriority(subject.missedClasses, maxClasses),
               cat.tips[tipIndex % |cat.tips|],
               technique.name + ": " + technique.desc)
    ensures topic == MakeTopic(cat, sorted, i, base + i, minutesPerDay, maxClasses)
  {
    SlotIsFull(minutesPerDay, SubjectsToday(|sorted|), i, remaining);
    SmallModulus(i, |sorted|);
  }

  /** The topics of a day whose first topic is the `base`-th of the call. */
  function DayTopics(cat: Catalogue, sorted: seq<Subject>, minutesPerDay: nat, maxClasses: int,
                     base: nat): seq<TopicBlock>
    requires ValidCatalogue(cat) && maxClasses > 0
  {
    TopicCountBelowSubjects(minutesPerDay, |sorted|);
    TopicsUpTo(cat, sorted, minutesPerDay, maxClasses, base, TopicCount(minutesPerDay, |sorted|))
  }

  lemma TopicsUpToNext(cat: Catalogue, sorted: seq<Subject>, minutesPerDay: nat, maxClasses: int,
                        base: nat, count: nat)
    requires ValidCatalogue(cat) && maxClasses > 0 && count < |sorted|
    ensures TopicsUpTo(cat, sorted, minutesPerDay, maxClasses, base, count + 1)
            == TopicsUpTo(cat, sorted, minutesPerDay, maxClasses, base, count)
               + [MakeTopic(cat, sorted, count, base + count, minutesPerDay, maxClasses)]
  {
  }

  // ---------------------------------------------------------------------------
  // The week

  /** The selected weekday indices below `d`, in increasing order, each once. */
  function StudyDaysBelow(d: nat, studyDays: seq<int>): (r: seq<nat>)
    requires d <= 7
    ensures forall p :: 0 <= p < |r| ==> r[p] < d
  {
    if d == 0 then []
    else StudyDaysBelow(d - 1, studyDays) + (if d - 1 in studyDays then [d - 1] else [])
  }

  /** The plans of the given days, the day at position p holding topics p*T .. p*T+T-1 of the call. */
  function ScheduleFor(cat: Catalogue, sorted: seq<Subject>, minutesPerDay: nat, maxClasses: int,
                       days: seq<nat>): seq<DayPlan>
    requires ValidCatalogue(cat) && maxClasses > 0
    requires forall p :: 0 <= p < |days| ==> days[p] < 7
  {
    var t := TopicCount(minutesPerDay, |sorted|);
    if t == 0 then []
    else seq(|days|, p requires 0 <= p < |days| =>
                       DayPlan(DayNames[days[p]], DayTopics(cat, sorted, minutesPerDay, maxClasses, p * t)))
  }

  /** `weeklySchedule` for an already sorted subject list. */
  function ExpectedSchedule(cat: Catalogue, sorted: seq<Subject>, minutesPerDay: nat, maxClasses: int,
                            studyDays: seq<int>): seq<DayPlan>
    requires ValidCatalogue(cat) && maxClasses > 0
  {
    ScheduleFor(cat, sorted, minutesPerDay, maxClasses, StudyDaysBelow(7, studyDays))
  }

  // ---------------------------------------------------------------------------
  // Milestones, texts, the whole plan

  function MilestoneText(week: nat, name: string): string {
    "Semana " + NatToString(week) + ": Dominar os conceitos fundamentais de " + name
  }

  /** `.map((s, i) => ...)` over a slice whose first element is week `week`. */
  function MilestoneLines(subjects: seq<Subject>, week: nat): (r: seq<string>)
    ensures |r| == |subjects|
    ensures forall i :: 0 <= i < |r| ==> r[i] == MilestoneText(week + i, subjects[i].name)
  {
    if subjects == [] then []
    else [MilestoneText(week, subjects[0].name)] + MilestoneLines(subjects[1..], week + 1)
  }

  /** `sortedSubjects.slice(0, 4).map(...)`: week i+1 names the i-th most-missed subject. */
  function Milestones(sorted: seq<Subject>): (r: seq<string>)
    ensures |r| == Min(MaxMilestones, |sorted|)
    ensures forall i :: 0 <= i < |r| ==> r[i] == MilestoneText(i + 1, sorted[i].name)
  {
    MilestoneLines(sorted[..Min(MaxMilestones, |sorted|)], 1)
  }

  /** How `${weeksNeeded}` prints each estimate. */
  function WeeksText(w: WeekEstimate): string {
    match w
    case Weeks(n) => IntToString(n)
    case PositiveInfinity => "Infinity"
    case NaN => "NaN"
  }

  /** `weeksNeeded > 1`; false for NaN. */
  function MoreThanOneWeek(w: WeekEstimate): bool {
    match w
    case Weeks(n) => n > 1
    case PositiveInfinity => true
    case NaN => false
  }

  /** How `${hoursPerDay}` prints a multiple of half an hour. */
  function HoursText(minutesPerDay: nat): string
    requires minutesPerDay % 30 == 0
  {
    NatToString(minutesPerDay / 60) + (if minutesPerDay % 60 == 0 then "" else ".5")
  }

  function PlanTitle(totalMissed: int, weeks: WeekEstimate): string {
    "Operação Recuperação: " + IntToString(totalMissed) + " Aulas em " + WeeksText(weeks)
    + " Semana" + (if MoreThanOneWeek(weeks) then "s" else "")
  }

  function PlanDescription(totalMissed: int, subjectCount: nat, minutesPerDay: nat, dayCount: nat): string
    requires minutesPerDay % 30 == 0
  {
    "Este plano personalizado foi elaborado para você recuperar " + IntToString(totalMissed)
    + " aulas atrasadas em " + NatToString(subjectCount) + " disciplina"
    + (if subjectCount > 1 then "s" else "") + ", dedicando " + HoursText(minutesPerDay)
    + "h por dia durante " + NatToString(dayCount)
    + " dias por semana. Siga o cronograma com disciplina e você alcançará seu objetivo!"
  }

  /** `hoursPerDay`: the slider's value, in hours. */
  function HoursPerDay(minutesPerDay: nat): real {
    minutesPerDay as real / 60.0
  }

  /** The slider's domain: half-hour steps from half an hour up, given in minutes. */
  predicate ValidBudget(minutesPerDay: nat) {
    minutesPerDay >= MinSessionBudget && minutesPerDay % 30 == 0
  }

  /** The plan `generateStudyPlanLocal` returns, the motivational quote being number `quoteIndex`. */
  function ExpectedPlan(cat: Catalogue, subjects: seq<Subject>, minutesPerDay: nat, studyDays: seq<int>,
                        quoteIndex: nat): StudyPlan
    requires ValidCatalogue(cat) && ValidBudget(minutesPerDay) && quoteIndex < |cat.quotes|
  {
    var valid := ValidSubjects(subjects);
    var total := SumMissed(valid);
    var maxClasses := MaxClasses(valid);
    var sorted := SortByMissedDesc(valid);
    var weeks := EstimateWeeks(total, minutesPerDay, |studyDays|);
    StudyPlan(
      PlanTitle(total, weeks),
      PlanDescription(total, |valid|, minutesPerDay, |studyDays|),
      Summary(total, |valid|, HoursPerDay(minutesPerDay), |studyDays|, weeks),
      ExpectedSchedule(cat, sorted, minutesPerDay, maxClasses, studyDays),
      cat.quotes[quoteIndex],
      cat.generalTips[..GeneralTipCount],
      Milestones(sorted))
  }

  lemma StudyDaysBelowNext(d: nat, studyDays: seq<int>)
    requires d < 7
    ensures StudyDaysBelow(d + 1, studyDays)
            == StudyDaysBelow(d, studyDays) + (if d in studyDays then [d] else [])
  {
  }

  lemma ScheduleForSnoc(cat: Catalogue, sorted: seq<Subject>, minutesPerDay: nat, maxClasses: int,
                         days: seq<nat>, d: nat)
    requires ValidCatalogue(cat) && maxClasses > 0 && d < 7
    requires forall p :: 0 <= p < |days| ==> days[p] < 7
    requires TopicCount(minutesPerDay, |sorted|) > 0
    ensures ScheduleFor(cat, sorted, minutesPerDay, maxClasses, days + [d])
            == ScheduleFor(cat, sorted, minutesPerDay, maxClasses, days)
               + [DayPlan(DayNames[d], DayTopics(cat, sorted, minutesPerDay, maxClasses,
                                                  |days| * TopicCount(minutesPerDay, |sorted|)))]
  {
    var longer := ScheduleFor(cat, sorted, minutesPerDay, maxClasses, days + [d]);
    var shorter := ScheduleFor(cat, sorted, minutesPerDay, maxClasses, days);
    assert |longer| == |shorter| + 1;
    forall p | 0 <= p < |shorter| ensures longer[p] == shorter[p] {
      assert (days + [d])[p] == days[p];
    }
  }

  /**
   * One included day of `generateStudyPlanLocal`: the slot loop, starting with
   * the technique and tip counters at `techniqueStart` and `tipStart`.
   * `i % sortedSubjects.length` is kept although `i` never reaches the length.
   */
  method FillDay(cat: Catalogue, sortedSubjects: seq<Subject>, minutesPerDay: nat, maxClasses: int,
                 techniqueStart: nat, tipStart: nat)
    returns (dayTopics: seq<TopicBlock>, techniqueIndex: nat, tipIndex: nat)
    requires ValidCatalogue(cat) && maxClasses > 0 && techniqueStart == tipStart
    ensures dayTopics == DayTopics(cat, sortedSubjects, minutesPerDay, maxClasses, techniqueStart)
    ensures |dayTopics| == TopicCount(minutesPerDay, |sortedSubjects|)
    ensures techniqueIndex == tipIndex == techniqueStart + |dayTopics|
  {
    var n := |sortedSubjects|;
    ghost var topicsPerDay := TopicCount(minutesPerDay, n);
    techniqueIndex, tipIndex := techniqueStart, tipStart;
    dayTopics := [];
    var remainingMinutes: int := minutesPerDay;
    var subjectsToday := Min(n, MaxSubjectsPerDay);
    // with no subject JavaScript computes Infinity here, which the loop below never reads
    var minutesPerSubject := if subjectsToday > 0 then remainingMinutes / subjectsToday else 0;

    var i: nat := 0;
    while i < subjectsToday && remainingMinutes >= MinSessionBudget
      invariant i <= subjectsToday
      invariant remainingMinutes == minutesPerDay - i * minutesPerSubject
      invariant n > 0 ==> minutesPerSubject == MinutesPerSubject(minutesPerDay, n)
      invariant n > 0 ==> FirstUnfilledSlot(minutesPerDay, minutesPerSubject, subjectsToday, i) == topicsPerDay
      invariant dayTopics == TopicsUpTo(cat, sortedSubjects, minutesPerDay, maxClasses, techniqueStart, i)
      invariant techniqueIndex == tipIndex == techniqueStart + i
    {
      SlotFits(minutesPerDay, subjectsToday, i);
      var subject := sortedSubjects[i % n];
      var classesToCover := CeilDiv(minutesPerSubject, MinutesPerClass);
      var sessionMinutes := Min(minutesPerSubject, remainingMinutes);

      var technique := cat.techniques[techniqueIndex % |cat.techniques|];
      techniqueIndex := techniqueIndex + 1;

      var topic := TopicBlock(
        subject.name,
        Subtopic(i, classesToCover),
        FormatDuration(sessionMinutes),
        GetPriority(subject.missedClasses, maxClasses),
        cat.tips[tipIndex % |cat.tips|],
        technique.name + ": " + technique.desc);
      SlotTopicIsMakeTopic(cat, sortedSubjects, i, techniqueStart, minutesPerDay, maxClasses, remainingMinutes,
                           techniqueIndex - 1, tipIndex, topic);
      TopicsUpToNext(cat, sortedSubjects, minutesPerDay, maxClasses, techniqueStart, i);
      dayTopics := dayTopics + [topic];

      tipIndex := tipIndex + 1;
      remainingMinutes := remainingMinutes - sessionMinutes;
      i := i + 1;
    }
    assert n > 0 ==> i == topicsPerDay;
  }

  /** The day loop of `generateStudyPlanLocal`: `weeklySchedule` for an already sorted subject list. */
  method BuildWeeklySchedule(cat: Catalogue, sortedSubjects: seq<Subject>, minutesPerDay: nat, maxClasses: int,
                             studyDays: seq<int>)
    returns (weeklySchedule: seq<DayPlan>)
    requires ValidCatalogue(cat) && maxClasses > 0
    ensures weeklySchedule == ExpectedSchedule(cat, sortedSubjects, minutesPerDay, maxClasses, studyDays)
  {
    ghost var topicsPerDay := TopicCount(minutesPerDay, |sortedSubjects|);
    weeklySchedule := [];
    var techniqueIndex: nat := 0;
    var tipIndex: nat := 0;

    var dayIdx: nat := 0;
    while dayIdx < 7
      invariant dayIdx <= 7
      invariant weeklySchedule
                == ScheduleFor(cat, sortedSubjects, minutesPerDay, maxClasses, StudyDaysBelow(dayIdx, studyDays))
      invariant techniqueIndex == tipIndex == |StudyDaysBelow(dayIdx, studyDays)| * topicsPerDay
    {
      StudyDaysBelowNext(dayIdx, studyDays);
      if dayIdx !in studyDays {
        dayIdx := dayIdx + 1;
        continue;
      }
      var dayTopics;
      dayTopics, techniqueIndex, tipIndex := FillDay(cat, sortedSubjects, minutesPerDay, maxClasses, techniqueIndex, tipIndex);
      if |dayTopics| > 0 {
        ScheduleForSnoc(cat, sortedSubjects, minutesPerDay, maxClasses, StudyDaysBelow(dayIdx, studyDays), dayIdx);
        weeklySchedule := weeklySchedule + [DayPlan(DayNames[dayIdx], dayTopics)];
      }
      dayIdx := dayIdx + 1;
    }
  }

  /**
   * `generateStudyPlanLocal`, drawing on the tables `cat` (the source's are
   * `SourceCatalogue`), the motivational quote being number `quoteIndex`.
   */
  method GenerateStudyPlanLocal(cat: Catalogue, subjects: seq<Subject>, minutesPerDay: nat, studyDays: seq<int>,
                                quoteIndex: nat)
    returns (plan: StudyPlan)
    requires ValidCatalogue(cat) && ValidBudget(minutesPerDay) && quoteIndex < |cat.quotes|
    ensures plan == ExpectedPlan(cat, subjects, minutesPerDay, studyDays, quoteIndex)
    ensures plan.summary.totalClasses == SumMissed(ValidSubjects(subjects))
    ensures plan.summary.totalSubjects == |ValidSubjects(subjects)|
    ensures plan.summary.daysPerWeek == |studyDays|
  {
    var validSubjects := ValidSubjects(subjects);
    var totalMissedClasses := SumMissed(validSubjects);
    var maxClasses := MaxClasses(validSubjects);
    var sortedSubjects := SortByMissedDesc(validSubjects);
    var weeksNeeded := EstimateWeeks(totalMissedClasses, minutesPerDay, |studyDays|);

    var weeklySchedule := BuildWeeklySchedule(cat, sortedSubjects, minutesPerDay, maxClasses, studyDays);
    var weeklyMilestones := Milestones(sortedSubjects);

    plan := StudyPlan(
      PlanTitle(totalMissedClasses, weeksNeeded),
      PlanDescription(totalMissedClasses, |validSubjects|, minutesPerDay, |studyDays|),
      Summary(totalMissedClasses, |validSubjects|, HoursPerDay(minutesPerDay), |studyDays|, weeksNeeded),
      weeklySchedule,
      cat.quotes[quoteIndex],
      cat.generalTips[..GeneralTipCount],
      weeklyMilestones);
  }

  // ---------------------------------------------------------------------------
  // What the schedule looks like

  /** The slot loop runs on from `i` exactly while a full session's budget is left. */
  lemma {:induction false} FirstUnfilledSlotStops(minutesPerDay: nat, perSubject: nat, slots: nat, i: nat)
    requires i <= slots
    ensures var r := FirstUnfilledSlot(minutesPerDay, perSubject, slots, i);
            (forall j :: i <= j < r ==> minutesPerDay - j * perSubject >= MinSessionBudget)
            && (r < slots ==> minutesPerDay - r * perSubject < MinSessionBudget)
    decreases slots - i
  {
    if i < slots && minutesPerDay - i * perSubject >= MinSessionBudget {
      FirstUnfilledSlotStops(minutesPerDay, perSubject, slots, i + 1);
    }
  }

  /**
   * The stop rule: every included day holds T topics, where before each of them
   * at least 30 minutes were left and, unless all min(n, 3) slots are used,
   * fewer than 30 minutes are left after them.
   */
  lemma TopicCountIsStopRule(minutesPerDay: nat, n: nat)
    requires n > 0
    ensures var t := TopicCount(minutesPerDay, n);
            var perSubject := MinutesPerSubject(minutesPerDay, n);
            t <= SubjectsToday(n)
            && (forall j :: 0 <= j < t ==> minutesPerDay - j * perSubject >= MinSessionBudget)
            && (t < SubjectsToday(n) ==> minutesPerDay - t * perSubject < MinSessionBudget)
  {
    FirstUnfilledSlotStops(minutesPerDay, MinutesPerSubject(minutesPerDay, n), SubjectsToday(n), 0);
  }

  /** With a subject and a valid budget every included day has between 1 and min(n, 3) topics. */
  lemma TopicCountBounds(minutesPerDay: nat, n: nat)
    requires ValidBudget(minutesPerDay)
    ensures n == 0 <==> TopicCount(minutesPerDay, n) == 0
    ensures TopicCount(minutesPerDay, n) <= SubjectsToday(n)
  {
    if n > 0 {
      TopicCountIsStopRule(minutesPerDay, n);
      assert minutesPerDay - 0 * MinutesPerSubject(minutesPerDay, n) >= MinSessionBudget;
    }
  }

  /** A day's sessions together take no more than the daily budget. */
  lemma SessionsFitBudget(minutesPerDay: nat, n: nat)
    requires n > 0
    ensures TopicCount(minutesPerDay, n) * MinutesPerSubject(minutesPerDay, n) <= minutesPerDay
  {
    var t := TopicCount(minutesPerDay, n);
    TopicCountBelowSubjects(minutesPerDay, n);
    if t > 0 {
      SlotFits(minutesPerDay, SubjectsToday(n), t - 1);
    }
  }

  lemma {:induction false} FirstUnfilledSlotAllFull(minutesPerDay: nat, perSubject: nat, slots: nat, i: nat)
    requires i <= slots
    requires forall j :: i <= j < slots ==> minutesPerDay - j * perSubject >= MinSessionBudget
    ensures FirstUnfilledSlot(minutesPerDay, perSubject, slots, i) == slots
    decreases slots - i
  {
    if i < slots {
      FirstUnfilledSlotAllFull(minutesPerDay, perSubject, slots, i + 1);
    }
  }

  /** From an hour and a half a day on, every included day uses all min(n, 3) slots. */
  lemma FullDays(minutesPerDay: nat, n: nat)
    requires n > 0 && minutesPerDay >= MaxSubjectsPerDay * MinSessionBudget
    ensures TopicCount(minutesPerDay, n) == SubjectsToday(n)
  {
    var k := SubjectsToday(n);
    var per := minutesPerDay / k;
    assert per >= MinSessionBudget;
    forall j | 0 <= j < k ensures minutesPerDay - j * per >= MinSessionBudget {
      SlotFits(minutesPerDay, k, j);
      assert (j + 1) * per == j * per + per;
    }
    FirstUnfilledSlotAllFull(minutesPerDay, per, k, 0);
  }

  /** Half an hour a day with three or more subjects gives one 10-minute session per day. */
  lemma HalfHourDay(n: nat)
    requires n >= MaxSubjectsPerDay
    ensures MinutesPerSubject(30, n) == 10
    ensures TopicCount(30, n) == 1
  {
    assert FirstUnfilledSlot(30, 10, 3, 1) == 1;
  }

  /**
   * Topic `i` of a day whose first topic is the `base`-th of the call: the i-th
   * most-missed subject with its priority, a full session, and the technique
   * and tip numbered `base + i` (modulo the table sizes).
   */
  lemma DayTopicsContent(cat: Catalogue, sorted: seq<Subject>, minutesPerDay: nat, maxClasses: int, base: nat)
    requires ValidCatalogue(cat) && maxClasses > 0 && |sorted| > 0
    ensures var topics := DayTopics(cat, sorted, minutesPerDay, maxClasses, base);
            var perSubject := MinutesPerSubject(minutesPerDay, |sorted|);
            |topics| == TopicCount(minutesPerDay, |sorted|)
            && forall i :: 0 <= i < |topics| ==>
                 && topics[i].subject == sorted[i].name
                 && topics[i].priority == GetPriority(sorted[i].missedClasses, maxClasses)
                 && topics[i].duration == FormatDuration(perSubject)
                 && topics[i].subtopic == Subtopic(i, CeilDiv(perSubject, MinutesPerClass))
                 && topics[i].tips == cat.tips[(base + i) % |cat.tips|]
                 && topics[i].technique == TechniqueText(cat.techniques[(base + i) % |cat.techniques|])
  {
    TopicCountBelowSubjects(minutesPerDay, |sorted|);
    var t := TopicCount(minutesPerDay, |sorted|);
    var topics := DayTopics(cat, sorted, minutesPerDay, maxClasses, base);
    assert topics == TopicsUpTo(cat, sorted, minutesPerDay, maxClasses, base, t);
    forall i | 0 <= i < t
      ensures topics[i] == MakeTopic(cat, sorted, i, base + i, minutesPerDay, maxClasses)
    {
    }
  }

  /** The selected days are listed in increasing order, so each at most once, and all of them are. */
  lemma {:induction false} StudyDaysBelowSpec(d: nat, studyDays: seq<int>)
    requires d <= 7
    ensures var r := StudyDaysBelow(d, studyDays);
            (forall p, q :: 0 <= p < q < |r| ==> r[p] < r[q])
            && (forall x: nat :: x in r <==> x < d && x in studyDays)
  {
    if d > 0 {
      StudyDaysBelowSpec(d - 1, studyDays);
      var r := StudyDaysBelow(d, studyDays);
      var shorter := StudyDaysBelow(d - 1, studyDays);
      assert forall p :: 0 <= p < |shorter| ==> r[p] == shorter[p];
    }
  }

  /**
   * `weeklySchedule`: with no subject it is empty; otherwise it has one day per
   * selected weekday index, in index order and named after it, and the day at
   * position p holds the topics numbered p*T .. p*T+T-1 of the whole call.
   */
  lemma ScheduleShape(cat: Catalogue, sorted: seq<Subject>, minutesPerDay: nat, maxClasses: int, studyDays: seq<int>)
    requires ValidCatalogue(cat) && ValidBudget(minutesPerDay) && maxClasses > 0
    ensures var schedule := ExpectedSchedule(cat, sorted, minutesPerDay, maxClasses, studyDays);
            var days := StudyDaysBelow(7, studyDays);
            var t := TopicCount(minutesPerDay, |sorted|);
            (|sorted| == 0 ==> schedule == [])
            && (|sorted| > 0 ==>
                  |schedule| == |days|
                  && forall p :: 0 <= p < |schedule| ==>
                       schedule[p].day == DayNames[days[p]]
                       && schedule[p].topics == DayTopics(cat, sorted, minutesPerDay, maxClasses, p * t))
  {
    TopicCountBounds(minutesPerDay, |sorted|);
  }

  /**
   * Every topic of the schedule: on each day topic i names the i-th most-missed
   * subject, lasts `floor(minutesPerDay / min(n, 3))` minutes, and, being topic
   * number k = p*T + i of the whole call, gets technique k and tip k modulo the
   * table sizes: the counters run on across days.
   */
  lemma ScheduleTopics(cat: Catalogue, sorted: seq<Subject>, minutesPerDay: nat, maxClasses: int,
                       studyDays: seq<int>, p: nat, i: nat)
    requires ValidCatalogue(cat) && ValidBudget(minutesPerDay) && maxClasses > 0
    requires p < |ExpectedSchedule(cat, sorted, minutesPerDay, maxClasses, studyDays)|
    ensures var day := ExpectedSchedule(cat, sorted, minutesPerDay, maxClasses, studyDays)[p];
            var t := TopicCount(minutesPerDay, |sorted|);
            var k := p * t + i;
            |sorted| > 0 && 1 <= t <= SubjectsToday(|sorted|) && |day.topics| == t
            && (i < t ==>
                  && day.topics[i].subject == sorted[i].name
                  && day.topics[i].priority == GetPriority(sorted[i].missedClasses, maxClasses)
                  && day.topics[i].duration == FormatDuration(MinutesPerSubject(minutesPerDay, |sorted|))
                  && day.topics[i].tips == cat.tips[k % |cat.tips|]
                  && day.topics[i].technique == TechniqueText(cat.techniques[k % |cat.techniques|]))
  {
    ScheduledDay(cat, sorted, minutesPerDay, maxClasses, studyDays, p);
    TopicCountBounds(minutesPerDay, |sorted|);
    DayTopicsContent(cat, sorted, minutesPerDay, maxClasses, p * TopicCount(minutesPerDay, |sorted|));
  }

  /** The p-th scheduled day holds the day's topics from counter p·t on. */
  lemma ScheduledDay(cat: Catalogue, sorted: seq<Subject>, minutesPerDay: nat, maxClasses: int,
                     studyDays: seq<int>, p: nat)
    requires ValidCatalogue(cat) && ValidBudget(minutesPerDay) && maxClasses > 0
    requires p < |ExpectedSchedule(cat, sorted, minutesPerDay, maxClasses, studyDays)|
    ensures |sorted| > 0
    ensures ExpectedSchedule(cat, sorted, minutesPerDay, maxClasses, studyDays)[p].topics
            == DayTopics(cat, sorted, minutesPerDay, maxClasses, p * TopicCount(minutesPerDay, |sorted|))
  {
    ScheduleShape(cat, sorted, minutesPerDay, maxClasses, studyDays);
  }

  /** The minutes a list of topics takes, read back from their duration texts; none if one is unreadable. */
  function TopicMinutes(topics: seq<TopicBlock>): Option<nat> {
    if topics == [] then Some(0)
    else
      var front := TopicMinutes(topics[..|topics| - 1]);
      var last := ParseDuration(topics[|topics| - 1].duration);
      if front.Some? && last.Some? then Some(front.value + last.value) else None
  }

  lemma MulSucc(k: nat, d: nat)
    ensures k * d + d == (k + 1) * d
  {
  }

  /** Topics that all carry a duration text reading `d` minutes take `|topics| * d` minutes together. */
  lemma {:induction false} TopicMinutesOfEqualDurations(topics: seq<TopicBlock>, duration: string, d: nat)
    requires ParseDuration(duration) == Some(d)
    requires forall i :: 0 <= i < |topics| ==> topics[i].duration == duration
    ensures TopicMinutes(topics) == Some(|topics| * d)
  {
    if topics != [] {
      var n := |topics|;
      var front := topics[..n - 1];
      assert forall i :: 0 <= i < |front| ==> front[i].duration == topics[i].duration;
      TopicMinutesOfEqualDurations(front, duration, d);
      assert topics[n - 1].duration == duration;
      MulSucc(n - 1, d);
    }
  }

  /**
   * Every day of the schedule fits the daily budget: the durations written on
   * its topics add up to at most `minutesPerDay`.
   */
  lemma ScheduledDayFitsBudget(cat: Catalogue, sorted: seq<Subject>, minutesPerDay: nat, maxClasses: int,
                               studyDays: seq<int>, p: nat)
    requires ValidCatalogue(cat) && ValidBudget(minutesPerDay) && maxClasses > 0
    requires p < |ExpectedSchedule(cat, sorted, minutesPerDay, maxClasses, studyDays)|
    ensures var total := TopicMinutes(ExpectedSchedule(cat, sorted, minutesPerDay, maxClasses, studyDays)[p].topics);
            total.Some? && total.value <= minutesPerDay
  {
    ScheduledDay(cat, sorted, minutesPerDay, maxClasses, studyDays, p);
    var t := TopicCount(minutesPerDay, |sorted|);
    var topics := DayTopics(cat, sorted, minutesPerDay, maxClasses, p * t);
    DayTopicsContent(cat, sorted, minutesPerDay, maxClasses, p * t);
    var perSubject := MinutesPerSubject(minutesPerDay, |sorted|);
    DurationRoundTrip(perSubject);
    TopicMinutesOfEqualDurations(topics, FormatDuration(perSubject), perSubject);
    SessionsFitBudget(minutesPerDay, |sorted|);
  }
}
