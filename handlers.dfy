/**
 * The two replacement content handlers of the example bot: a text handler
 * that tags a message with its kind, and an image handler that rewrites the
 * base handler's instruction text. The base handlers' own output is an input.
 */
module Handlers {
  import opened Strings
  import opened Session
  import opened Wrappers

  // ---------------------------------------------------------------------
  // Text handler
  // ---------------------------------------------------------------------

  datatype Category = CodeRequest | Question | Translation | Greeting | Plain

  const CodeTerms: seq<string> := ["code", "function", "script", "program"]
  const QuestionWords: seq<string> := ["what", "why", "how", "when", "where", "who", "can", "could"]
  const TranslationPhrases: seq<string> := ["translate", "in spanish", "in french"]
  const Greetings: seq<string> := ["hi", "hello", "hey", "greetings"]

  /** Some code term occurs anywhere in the lowered text. */
  predicate MentionsCode(lower: string) {
    exists t :: t in CodeTerms && Contains(lower, t)
  }

  /** The text ends in '?' or its lowered form starts with a question word
      (as a prefix, so "however" counts). */
  predicate AsksQuestion(text: string) {
    EndsWith(text, "?") || exists w :: w in QuestionWords && StartsWith(Lower(text), w)
  }

  predicate AsksTranslation(lower: string) {
    exists t :: t in TranslationPhrases && Contains(lower, t)
  }

  /** Some greeting is one of the words `split()` gives of the lowered text. */
  predicate Greets(lower: string) {
    exists g :: g in Greetings && g in Split(lower)
  }

  /** Greeting means some greeting is a whole whitespace-delimited word. */
  lemma GreetsTokens(lower: string)
    ensures Greets(lower) <==> exists g :: g in Greetings && IsToken(lower, g)
  {
    forall g | g in Greetings ensures g in Split(lower) <==> IsToken(lower, g) {
      SplitTokens(lower, g);
    }
  }

  /** The kind of a text, tested in the handler's order code, question,
      translation, greeting: code terms and translation phrases match
      anywhere in the lowered text, greetings only as whole words of it. */
  function Classify(text: string): (c: Category)
    ensures c == CodeRequest <==> MentionsCode(Lower(text))
    ensures c == Question <==> !MentionsCode(Lower(text)) && AsksQuestion(text)
    ensures c == Translation <==>
      !MentionsCode(Lower(text)) && !AsksQuestion(text) && AsksTranslation(Lower(text))
    ensures c == Greeting <==>
      && !MentionsCode(Lower(text)) && !AsksQuestion(text) && !AsksTranslation(Lower(text))
      && exists g :: g in Greetings && IsToken(Lower(text), g)
    ensures c == Plain <==>
      && !MentionsCode(Lower(text)) && !AsksQuestion(text) && !AsksTranslation(Lower(text))
      && forall g :: g in Greetings ==> !IsToken(Lower(text), g)
  {
    var lower := Lower(text);
    GreetsTokens(lower);
    if MentionsCode(lower) then CodeRequest
    else if AsksQuestion(text) then Question
    else if AsksTranslation(lower) then Translation
    else if Greets(lower) then Greeting
    else Plain
  }

  function Tag(c: Category): string {
    match c
    case CodeRequest => "\U{1F9D1}\U{200D}\U{1F4BB} CODE REQUEST"
    case Question => "\U{2753} QUESTION"
    case Translation => "\U{1F310} TRANSLATION REQUEST"
    case Greeting => "\U{1F44B} GREETING"
    case Plain => "\U{1F4AC} MESSAGE"
  }

  function Note(c: Category): string {
    match c
    case CodeRequest => "I'll format my code response with proper syntax highlighting"
    case Question => "I'll provide a clear and comprehensive answer"
    case Translation => "I'll translate this accurately with proper context"
    case Greeting => "Responding with a friendly welcome"
    case Plain => "Enhanced text processing activated"
  }

  /** What comes before the user's text in a tagged message. */
  function Head(c: Category): string {
    Tag(c) + ": "
  }

  /** What comes after the user's text in a tagged message. */
  function Tail(c: Category): string {
    "\n\n[" + Note(c) + "]"
  }

  /** The text handler's result for the base handler's text: an empty text
      is passed through, any other is tagged with its kind. */
  function ProcessText(text: string): (r: string)
    ensures text == [] ==> r == []
    ensures text != [] ==> |r| > |text| && OccursAt(r, text, |Head(Classify(text))|)
  {
    if text == [] then text
    else
      var c := Classify(text);
      Head(c) + text + Tail(c)
  }

  /** `r` has the shape of a message tagged as `c`. */
  predicate FramedAs(r: string, c: Category) {
    |Head(c)| + |Tail(c)| <= |r| && StartsWith(r, Head(c)) && EndsWith(r, Tail(c))
  }

  /** Reads a tagged message back: the first kind whose frame fits, and the
      text inside the frame. */
  function Unframe(r: string): Option<(Category, string)> {
    UnframeFirst(r, [CodeRequest, Question, Translation, Greeting, Plain])
  }

  function UnframeFirst(r: string, cs: seq<Category>): Option<(Category, string)> {
    if cs == [] then None
    else if FramedAs(r, cs[0]) then Some((cs[0], r[|Head(cs[0])|..|r| - |Tail(cs[0])|]))
    else UnframeFirst(r, cs[1..])
  }

  /** The first character of each kind's tag. */
  function Lead(c: Category): char {
    match c
    case CodeRequest => '\U{1F9D1}'
    case Question => '\U{2753}'
    case Translation => '\U{1F310}'
    case Greeting => '\U{1F44B}'
    case Plain => '\U{1F4AC}'
  }

  /** Each head starts with its kind's first character. */
  lemma HeadLead(c: Category)
    ensures |Head(c)| > 0 && Head(c)[0] == Lead(c)
  {
  }

  /** The five first characters differ. */
  lemma LeadsDistinct(c: Category, d: Category)
    requires c != d
    ensures Lead(c) != Lead(d)
  {
  }

  /** A string that differs from `h` in its first character does not start with `h`. */
  lemma StartsDiffer(a: string, t: string, u: string, h: string)
    requires |a| > 0 && |h| > 0 && a[0] != h[0]
    ensures !StartsWith(a + t + u, h)
  {
    var r := a + t + u;
    assert r[0] == a[0];
    if |h| <= |r| {
      assert r[..|h|][0] == r[0];
    }
  }

  /** Tags differ in their first character, so a message tagged as `c` has
      no other kind's head. */
  lemma HeadsDistinct(c: Category, d: Category, text: string)
    requires c != d
    ensures !StartsWith(Head(c) + text + Tail(c), Head(d))
  {
    HeadLead(c);
    HeadLead(d);
    LeadsDistinct(c, d);
    StartsDiffer(Head(c), text, Tail(c), Head(d));
  }

  /** A message framed as `c` is read back as `c` and its text. */
  lemma FrameRoundTrip(c: Category, text: string)
    ensures Unframe(Head(c) + text + Tail(c)) == Some((c, text))
  {
    var r := Head(c) + text + Tail(c);
    FramedOwn(c, text);
    forall d | d != c ensures !FramedAs(r, d) {
      HeadsDistinct(c, d, text);
    }
    UnframeFirstFinds(r, [CodeRequest, Question, Translation, Greeting, Plain], c);
  }

  /** A message framed as `c` has `c`'s frame around exactly the text. */
  lemma FramedOwn(c: Category, text: string)
    ensures FramedAs(Head(c) + text + Tail(c), c)
    ensures var r := Head(c) + text + Tail(c); r[|Head(c)|..|r| - |Tail(c)|] == text
  {
    var r := Head(c) + text + Tail(c);
    assert r[..|Head(c)|] == Head(c);
    assert r[|r| - |Tail(c)|..] == Tail(c);
    assert r[|Head(c)|..|r| - |Tail(c)|] == text;
  }

  lemma {:induction false} UnframeFirstFinds(r: string, cs: seq<Category>, c: Category)
    requires c in cs && FramedAs(r, c)
    requires forall d :: d in cs && d != c ==> !FramedAs(r, d)
    ensures UnframeFirst(r, cs) == Some((c, r[|Head(c)|..|r| - |Tail(c)|]))
  {
    if cs[0] != c {
      UnframeFirstFinds(r, cs[1..], c);
    }
  }

  /** The user's text is embedded verbatim and its kind can be read back:
      tagging is undone by `Unframe`. */
  lemma ProcessTextRoundTrip(text: string)
    requires text != []
    ensures Unframe(ProcessText(text)) == Some((Classify(text), text))
  {
    FrameRoundTrip(Classify(text), text);
  }

  /** Distinct texts give distinct tagged messages. */
  lemma ProcessTextInjective(t1: string, t2: string)
    requires ProcessText(t1) == ProcessText(t2)
    ensures t1 == t2
  {
    if t1 != [] && t2 != [] {
      ProcessTextRoundTrip(t1);
      ProcessTextRoundTrip(t2);
    }
  }

  /** A code term written in any ASCII case makes the text a code request,
      whatever else it contains. */
  lemma CodeTermAnyCase(text: string, u: string)
    requires Lower(u) in CodeTerms && Contains(text, u)
    ensures Classify(text) == CodeRequest
  {
    ContainsLower(text, u);
  }

  /** A lowered text lacking some character of every code term mentions no code. */
  lemma NoCodeTerm(lower: string)
    requires 'd' !in lower && 'u' !in lower && 'p' !in lower
    ensures !MentionsCode(lower)
  {
    forall t | t in CodeTerms ensures !Contains(lower, t) {
      if Contains(lower, t) {
        if t == "code" { ContainsChar(lower, t, 2); }
        else if t == "function" { ContainsChar(lower, t, 1); }
        else if t == "script" { ContainsChar(lower, t, 4); }
        else { ContainsChar(lower, t, 0); }
      }
    }
  }

  /** A text whose first character starts no question word and that does
      not end in '?' asks no question. */
  lemma NoQuestion(text: string)
    requires |text| > 0 && text[|text| - 1] != '?'
    requires ToLower(text[0]) !in "whc"
    ensures !AsksQuestion(text)
  {
    forall w | w in QuestionWords ensures !StartsWith(Lower(text), w) {
      assert w[0] in "whc";
    }
  }

  lemma CodeBeatsQuestion()
    ensures Classify("Can you write code?") == CodeRequest
  {
    var lower := Lower("Can you write code?");
    assert lower == "can you write code?";
    assert OccursAt(lower, CodeTerms[0], 14);
    assert Contains(lower, CodeTerms[0]);
    assert MentionsCode(lower);
  }

  lemma TranslationBeatsGreeting()
    ensures Classify("Say hello in French") == Translation
  {
    var text := "Say hello in French";
    LowerSayHello();
    NoCodeTerm("say hello in french");
    NoQuestion(text);
    InFrench();
    ClassifiedTranslation(text);
  }

  /** The example lowered. */
  lemma LowerSayHello()
    ensures Lower("Say hello in French") == "say hello in french"
  {
  }

  /** The lowered example holds "in french". */
  lemma InFrench()
    ensures AsksTranslation("say hello in french")
  {
    assert OccursAt("say hello in french", TranslationPhrases[2], 10);
    assert Contains("say hello in french", TranslationPhrases[2]);
  }

  lemma ClassifiedTranslation(text: string)
    requires !MentionsCode(Lower(text)) && !AsksQuestion(text) && AsksTranslation(Lower(text))
    ensures Classify(text) == Translation
  {
  }

  lemma WholeWordGreeting()
    ensures Classify("hi") == Greeting
  {
    assert !MentionsCode(Lower("hi")) && !AsksQuestion("hi") && !AsksTranslation(Lower("hi"))
      && Greets(Lower("hi")) by {
      assert Lower("hi") == "hi";
      NoCodeTerm("hi");
      assert !AsksQuestion("hi") by {
        forall w | w in QuestionWords ensures !StartsWith("hi", w) { }
      }
      assert !AsksTranslation("hi") by {
        forall t | t in TranslationPhrases ensures !Contains("hi", t) { }
      }
      assert WordLength("hi") == 2;
      assert "hi"[..2] == "hi" && "hi"[2..] == [];
      assert Split("hi") == ["hi"] + Split([]);
      assert Greetings[0] in Split("hi");
    }
  }

  lemma GluedGreetingIsPlain()
    ensures Classify("hi!") == Plain
  {
    assert !MentionsCode(Lower("hi!")) && !AsksQuestion("hi!") && !AsksTranslation(Lower("hi!"))
      && !Greets(Lower("hi!")) by {
      assert Lower("hi!") == "hi!";
      NoCodeTerm("hi!");
      assert !AsksQuestion("hi!") by {
        forall w | w in QuestionWords ensures !StartsWith("hi!", w) {
          if w == "how" { assert "hi!"[1] != w[1]; }
        }
      }
      assert !AsksTranslation("hi!") by {
        forall t | t in TranslationPhrases ensures !Contains("hi!", t) { }
      }
      assert WordLength("hi!") == 3;
      assert "hi!"[..3] == "hi!" && "hi!"[3..] == [];
      assert Split("hi!") == ["hi!"] + Split([]);
    }
  }

  // ---------------------------------------------------------------------
  // Image handler
  // ---------------------------------------------------------------------

  /** What the base image handler returns: a description string for a
      model without vision, or the list of parts it builds for one with
      vision. The list is a mutable object shared with the caller. */
  datatype ImageResult = TextResult(text: string) | ListResult(items: array<Part>)

  const ImageMarker := "[The user sent an image"
  const ImageInstruction := "[The user sent an image. Analyze what might be in it based on any caption"
  const AnalyzingPlaceholder := "Analyzing this image"
  const DetailedPrompt := "Describe this image in detail and what you see in it."

  /** The string branch: every marker replaced by the longer instruction. */
  function EnhancedImageText(s: string): string {
    Replace(s, ImageMarker, ImageInstruction)
  }

  /** A string is changed exactly when it holds the marker. */
  lemma EnhancedImageTextChanges(s: string)
    ensures EnhancedImageText(s) == s <==> !Contains(s, ImageMarker)
  {
    if Contains(s, ImageMarker) {
      ReplaceGrows(s, ImageMarker, ImageInstruction);
    }
  }

  /** A dictionary part whose 'type' is 'text' and whose 'text' (default
      '') is exactly the placeholder. */
  predicate IsPlaceholderPart(p: Part) {
    && p.DictPart?
    && "type" in p.fields && p.fields["type"] == "text"
    && "text" in p.fields && p.fields["text"] == AnalyzingPlaceholder
  }

  /** The list branch, on the list's contents: only the first part can
      change, and only when it is the placeholder text part. */
  function EnhancedParts(parts: seq<Part>): (r: seq<Part>)
    ensures |r| == |parts|
    ensures forall i :: 1 <= i < |parts| ==> r[i] == parts[i]
    ensures |parts| > 0 ==> (r[0] != parts[0] <==> IsPlaceholderPart(parts[0]))
    ensures |parts| > 0 && IsPlaceholderPart(parts[0]) ==>
      r[0].DictPart? && r[0].fields == parts[0].fields["text" := DetailedPrompt]
    ensures parts == [] ==> r == []
  {
    if |parts| > 0 && IsPlaceholderPart(parts[0])
    then parts[0 := DictPart(parts[0].fields["text" := DetailedPrompt])]
    else parts
  }

  /** Rewriting the list twice is the same as once. */
  lemma EnhancedPartsIdempotent(parts: seq<Part>)
    ensures EnhancedParts(EnhancedParts(parts)) == EnhancedParts(parts)
  {
    var once := EnhancedParts(parts);
    if |parts| > 0 && IsPlaceholderPart(parts[0]) {
      assert once[0].fields["text"] == DetailedPrompt;
      assert !IsPlaceholderPart(once[0]);
    }
  }

  function ResultFrame(result: ImageResult): set<object> {
    if result.ListResult? then {result.items} else {}
  }

  /** The image handler's post-processing of the base result: a string is
      rewritten into a new string; a list is rewritten in place and
      returned itself. */
  method ProcessImageResult(result: ImageResult) returns (r: ImageResult)
    modifies ResultFrame(result)
    ensures result.TextResult? ==> r == TextResult(EnhancedImageText(result.text))
    ensures result.ListResult? ==>
      r == result && result.items[..] == EnhancedParts(old(result.items[..]))
  {
    if result.TextResult? {
      return TextResult(Replace(result.text, ImageMarker, ImageInstruction));
    }
    var items := result.items;
    if items.Length > 0 && items[0].DictPart? {
      var fields := items[0].fields;
      if "type" in fields && fields["type"] == "text" {
        var text := if "text" in fields then fields["text"] else "";
        if text == AnalyzingPlaceholder {
          items[0] := DictPart(fields["text" := DetailedPrompt]);
        }
      }
    }
    r := result;
  }
}
