/** The analysis flow of the feasibility-study page: the guard on the API key,
    the prompt sent to the generation model, and the split of the model's
    reply into the overview, financial and plan sections shown in three tabs. */
module App {
  import opened PyStr
  import PyDecimal

  /** The token the prompt asks the model to put between sections. */
  const Sentinel: string := "###"

  /** A key holding this marker is the unconfigured placeholder. */
  const PlaceholderMarker: string := "ضع_مفتاح"

  /** The key used when the secret store has none. */
  const FallbackKey: string := "ضع_مفتاحك_هنا_فقط_للتجربة_على_جهازك_وليس_للرفع"

  const ModelName: string := "gemini-2.5-flash"

  /** The fixed pieces of the prompt, in order around the three inputs. */
  const PromptOpening: string := "اكتب دراسة جدوى لمشروع: "
  const BeforeCity: string := " في "
  const BeforeCapital: string := " برأس مال "
  const AfterCapital: string := ". "
  const SeparatorInstruction: string := "افصل الأقسام بكلمة '###'. "
  const SectionList: string := "1. ملخص. 2. مالي. 3. تشغيل وتسويق."

  /** The three tabs of the report. */
  datatype Sections = Sections(overview: string, financial: string, plan: string)

  /** What the user typed and chose on the form. */
  datatype StudyRequest = StudyRequest(projectType: string, city: string, capital: int)

  /** One request to the hosted generation model. */
  datatype ModelCall = ModelCall(apiKey: string, model: string, contents: string)

  /** What one run of the page produces: nothing before the button is pressed,
      the missing-key error, the generic error shown when the model call fails,
      or a study built from the model's reply. */
  datatype Outcome =
    | Idle
    | MissingKey
    | Failed(call: ModelCall)
    | Study(call: ModelCall, reply: string, sections: Sections)

  /** The reply split on the sentinel; the first three segments fill the tabs
      and a missing segment leaves its tab empty. */
  function SplitSections(txt: string): (r: Sections)
    ensures !Contains(r.overview, Sentinel)
    ensures !Contains(r.financial, Sentinel)
    ensures !Contains(r.plan, Sentinel)
  {
    var parts := Split(txt, Sentinel);
    Sections(
      if |parts| > 0 then parts[0] else txt,
      if |parts| > 1 then parts[1] else "",
      if |parts| > 2 then parts[2] else "")
  }

  /** A key can be used unless it is empty or still holds the placeholder. */
  function KeyUsable(key: string): (ok: bool)
    ensures ok <==> key != "" && forall i :: 0 <= i <= |key| ==> !Occurs(key, PlaceholderMarker, i)
  {
    !(key == "" || Contains(key, PlaceholderMarker))
  }

  /** The marker rejects a key wherever it stands in it. */
  lemma MarkerAnywhereRejected(before: string, after: string)
    ensures !KeyUsable(before + PlaceholderMarker + after)
  {
    ContainsInfix(before, PlaceholderMarker, after);
  }

  /** Conversely, a non-empty key that is rejected has the marker standing
      somewhere in it. */
  lemma RejectedKeyHoldsMarker(key: string) returns (before: string, after: string)
    requires key != "" && !KeyUsable(key)
    ensures key == before + PlaceholderMarker + after
  {
    var i :| 0 <= i <= |key| && Occurs(key, PlaceholderMarker, i);
    before, after := key[..i], key[i + |PlaceholderMarker|..];
    assert key == key[..i] + key[i..i + |PlaceholderMarker|] + key[i + |PlaceholderMarker|..];
  }

  /** The prompt: the project idea, the city and the capital interpolated
      verbatim into a fixed text that ends by asking for sections separated by
      the sentinel. */
  function BuildPrompt(projectType: string, city: string, capital: int): (p: string)
    ensures PromptOpening + projectType <= p
    ensures |p| >= |SeparatorInstruction + SectionList|
    ensures p[|p| - |SeparatorInstruction + SectionList|..] == SeparatorInstruction + SectionList
  {
    var head := PromptOpening + projectType + BeforeCity + city + BeforeCapital
      + PyDecimal.IntToString(capital) + AfterCapital;
    assert head + (SeparatorInstruction + SectionList) == head + SeparatorInstruction + SectionList;
    head + SeparatorInstruction + SectionList
  }

  /** Every input reaches the prompt as a literal substring, and so does the
      quoted sentinel. */
  lemma PromptMentionsInputs(projectType: string, city: string, capital: int)
    ensures var p := BuildPrompt(projectType, city, capital);
      && Contains(p, projectType)
      && Contains(p, city)
      && Contains(p, PyDecimal.IntToString(capital))
      && Contains(p, "'" + Sentinel + "'")
  {
    SeparatorInstructionNamesSentinel();
    TemplateContainsSlots(PromptOpening, projectType, BeforeCity, city, BeforeCapital,
      PyDecimal.IntToString(capital), AfterCapital, SeparatorInstruction, SectionList, "'" + Sentinel + "'");
  }

  /** The prompt's shape with its fixed pieces left abstract: the three slots
      and whatever the eighth piece contains are all contained in the whole. */
  lemma TemplateContainsSlots(a: string, x: string, b: string, y: string, c: string, z: string,
                              d: string, e: string, f: string, q: string)
    requires Contains(e, q)
    ensures var s := a + x + b + y + c + z + d + e + f;
      Contains(s, x) && Contains(s, y) && Contains(s, z) && Contains(s, q)
  {
    var s := a + x + b + y + c + z + d + e + f;
    assert s == a + x + (b + y + c + z + d + e + f);
    ContainsInfix(a, x, b + y + c + z + d + e + f);
    assert s == a + x + b + y + (c + z + d + e + f);
    ContainsInfix(a + x + b, y, c + z + d + e + f);
    assert s == a + x + b + y + c + z + (d + e + f);
    ContainsInfix(a + x + b + y + c, z, d + e + f);
    ContainsWithin(a + x + b + y + c + z + d, e, f, q);
  }

  /** The instruction quotes the very sentinel the reply is split on. */
  lemma SeparatorInstructionNamesSentinel()
    ensures Contains(SeparatorInstruction, "'" + Sentinel + "'")
  {
    var quoted := "'" + Sentinel + "'";
    var at := |SeparatorInstruction| - 2 - |quoted|;
    forall k | 0 <= k < |quoted|
      ensures SeparatorInstruction[at + k] == quoted[k]
    {
    }
    assert SeparatorInstruction[at..at + |quoted|] == quoted;
    assert Occurs(SeparatorInstruction, quoted, at);
  }

  /** One press of the button: the key is checked before any model call, the
      prompt is sent to the model and its reply is split into the three tabs.
      `generate` stands for the hosted service: None when building the client
      or generating raises, or when the reply carries no text to split. */
  function Submit(pressed: bool, key: string, req: StudyRequest, generate: ModelCall -> Option<string>): (o: Outcome)
    ensures o.Idle? <==> !pressed
    ensures o.MissingKey? <==> pressed && !KeyUsable(key)
    ensures (o.Failed? || o.Study?) ==> KeyUsable(o.call.apiKey) && o.call.apiKey == key && o.call.model == ModelName
    ensures (o.Failed? || o.Study?) ==> o.call.contents == BuildPrompt(req.projectType, req.city, req.capital)
    ensures o.Failed? <==> pressed && KeyUsable(key) && generate(ModelCall(key, ModelName,
      BuildPrompt(req.projectType, req.city, req.capital))).None?
    ensures o.Study? ==> generate(o.call) == Some(o.reply) && o.sections == SplitSections(o.reply)
  {
    if !pressed then Idle
    else if !KeyUsable(key) then MissingKey
    else
      var call := ModelCall(key, ModelName, BuildPrompt(req.projectType, req.city, req.capital));
      match generate(call)
      case None => Failed(call)
      case Some(txt) => Study(call, txt, SplitSections(txt))
  }

  /** The fallback key is rejected, so without a configured secret the model
      is never called. */
  lemma FallbackKeyNeverCalls(pressed: bool, req: StudyRequest, generate: ModelCall -> Option<string>)
    ensures !KeyUsable(FallbackKey)
    ensures var o := Submit(pressed, FallbackKey, req, generate); !o.Study? && !o.Failed?
  {
    forall k | 0 <= k < |PlaceholderMarker|
      ensures FallbackKey[k] == PlaceholderMarker[k]
    {
    }
    assert FallbackKey[..|PlaceholderMarker|] == PlaceholderMarker;
    assert Occurs(FallbackKey, PlaceholderMarker, 0);
  }

  /** A reply fills the overview alone and leaves the other tabs empty
      exactly when it holds no sentinel. */
  lemma SectionsWithoutSentinel(txt: string)
    ensures SplitSections(txt) == Sections(txt, "", "") <==> !Contains(txt, Sentinel)
  {
    if !Contains(txt, Sentinel) {
      assert Find(txt, Sentinel).None?;
    }
  }

  /** The overview is the text before the first sentinel, or all of it when
      there is none; it is never the unsplit text by way of the `else` branch
      for an empty split, since a split is never empty. */
  lemma OverviewBeforeFirstSentinel(txt: string)
    ensures SplitSections(txt).overview <= txt
    ensures forall j :: 0 <= j < |SplitSections(txt).overview| ==> !Occurs(txt, Sentinel, j)
    ensures Contains(txt, Sentinel) ==> Occurs(txt, Sentinel, |SplitSections(txt).overview|)
    ensures !Contains(txt, Sentinel) ==> SplitSections(txt).overview == txt
  {
    var r := Find(txt, Sentinel);
    if r.Some? {
      assert Split(txt, Sentinel)[0] == txt[..r.value];
    }
  }

  /** The financial tab is empty when no sentinel occurs, the plan tab when
      fewer than two do. */
  lemma MissingSectionsAreEmpty(txt: string)
    ensures CountOccurrences(txt, Sentinel) == 0 ==> SplitSections(txt).financial == ""
    ensures CountOccurrences(txt, Sentinel) < 2 ==> SplitSections(txt).plan == ""
  {
    SplitLength(txt, Sentinel);
  }

  /** The tabs are consecutive pieces of the reply, in order: segments after
      the third are dropped and nothing is reordered. */
  lemma SectionsArePrefix(txt: string)
    ensures CountOccurrences(txt, Sentinel) >= 2 ==> SectionsJoined(SplitSections(txt)) <= txt
    ensures CountOccurrences(txt, Sentinel) == 2 ==> SectionsJoined(SplitSections(txt)) == txt
    ensures CountOccurrences(txt, Sentinel) == 1 ==>
      SplitSections(txt).overview + Sentinel + SplitSections(txt).financial == txt
  {
    var parts := Split(txt, Sentinel);
    SplitLength(txt, Sentinel);
    JoinSplit(txt, Sentinel);
    if |parts| >= 3 {
      JoinPrefix(parts, Sentinel, 3);
      JoinThree(parts, Sentinel);
      if |parts| == 3 {
        assert parts[..3] == parts;
      }
    } else if |parts| == 2 {
      assert parts[1..] == [parts[1]];
    }
  }

  /** The three tabs put back together around the sentinel. */
  function SectionsJoined(r: Sections): string
  {
    r.overview + Sentinel + r.financial + Sentinel + r.plan
  }
}
