/** The spoken texts of the launch flow: `getWelcomeMessage`, `getPrompt`,
    `getTimeOfDayMessage` and its phrase table (index.py:99-166). SSML
    markup is kept verbatim inside the strings. The random choice is an
    input `pick`: `random.choice(phrases)` is `phrases[pick % |phrases|]`. */
module Messages {
  import opened Wrappers
  import opened Values
  import Dicts

  const HowdyText :=
    "<say-as interpret-as=\"interjection\">Howdy!</say-as> "
    + "Welcome to The Foodie! "
    + "I'll help you find the right food right now. "
    + "To make that easier, you can give me permission to access your location, "
    + "just check the Alexa app. "

  const WelcomeBackOpening := "Welcome back!! "
  const DefaultGreeting := "It's time to stuff your face with delicious food. "
  const MealOpening := "It looks like last time you had "
  const MealClosing := "I wonder what it will be today. "

  /** The welcome text the session actually gets when its attributes are empty. */
  const WelcomeBackText := WelcomeBackOpening + DefaultGreeting

  /** Two adjacent literals in the source, joined without a space. */
  const FlavoursPrompt :=
    "Let's narrow it down. What flavors do you feel like?"
    + "You can say things like spicy, savory, greasy, and fresh."

  const NamePrompt := "How rude of me. I forgot to ask. What's your name?"

  /** The session-attribute path of the previous meal. */
  const MealPath := ["recommendations", "previous", "meal"]

  /** `timeOfDayMessages`. */
  const TimeOfDayMessages: map<string, seq<string>> := map[
    "breakfast" := [
      "It looks like it's breakfast. ",
      "<say-as interpret-as=\"interjection\">cock a doodle doo</say-as> It's time for breakfast. ",
      "Good morning! Time for breakfast"
    ],
    "brunch" := [
      "<say-as interpret-as=\"interjection\">cock a doodle doo</say-as> Let's get some brunch! ",
      "It's time for brunch. "
    ],
    "lunch" := [
      "Lunch time! ",
      "Time for lunch. "
    ],
    "dinner" := [
      "It's dinner time. ",
      "It's supper time. "
    ],
    "midnight" := [
      "<say-as interpret-as=\"interjection\">wowza</say-as> You're up late! You looking for a midnight snack? ",
      "It's time for a midnight snack. "
    ]
  ]

  /** `random.choice(phrases)` with the random draw `pick`; an empty list
      raises IndexError. */
  function RandomPhrase(phrases: seq<string>, pick: nat): (r: Result<string, Error>)
    ensures phrases == [] <==> r == Err(IndexError)
    ensures r.Ok? ==> r.value in phrases
  {
    if phrases == [] then Err(IndexError) else Ok(phrases[pick % |phrases|])
  }

  /** Every phrase of a non-empty list can be drawn. */
  lemma RandomPhraseCovers(phrases: seq<string>, p: string)
    requires p in phrases
    ensures exists pick: nat :: RandomPhrase(phrases, pick) == Ok(p)
  {
    var i :| 0 <= i < |phrases| && phrases[i] == p;
    assert RandomPhrase(phrases, i) == Ok(p);
  }

  /** `getTimeOfDayMessage(timeOfDay)`: a phrase of the category's list; an
      unknown category is a KeyError, and a dict, list or SDK object an unhashable-key
      TypeError. */
  function GetTimeOfDayMessage(timeOfDay: Value, pick: nat): (r: Result<string, Error>)
    ensures r.Ok? <==>
      timeOfDay.Str? && timeOfDay.text in {"breakfast", "brunch", "lunch", "dinner", "midnight"}
    ensures r.Ok? ==> r.value in TimeOfDayMessages[timeOfDay.text]
    ensures !Hashable(timeOfDay) ==> r == Err(TypeError)
    ensures Hashable(timeOfDay) && r.Err? ==> r == Err(KeyError(timeOfDay))
  {
    if !Hashable(timeOfDay) then Err(TypeError)
    else if timeOfDay.Str? && timeOfDay.text in TimeOfDayMessages then
      RandomPhrase(TimeOfDayMessages[timeOfDay.text], pick)
    else Err(KeyError(timeOfDay))
  }

  /** Dinner is one of exactly the two dinner phrases, and both occur. */
  lemma DinnerPhrases(pick: nat)
    ensures GetTimeOfDayMessage(Str("dinner"), pick) in {Ok("It's dinner time. "), Ok("It's supper time. ")}
    ensures exists p: nat :: GetTimeOfDayMessage(Str("dinner"), p) == Ok("It's dinner time. ")
    ensures exists p: nat :: GetTimeOfDayMessage(Str("dinner"), p) == Ok("It's supper time. ")
  {
    assert GetTimeOfDayMessage(Str("dinner"), 0) == Ok("It's dinner time. ");
    assert GetTimeOfDayMessage(Str("dinner"), 1) == Ok("It's supper time. ");
  }

  /** The `else` branch of `getWelcomeMessage` for any attributes: the
      opening, the time-of-day phrase when `timeOfDay` is truthy (else the
      default greeting), and the previous meal when its path exists. */
  function WelcomeBack(attrs: map<string, Value>, pick: nat): Result<string, Error> {
    var timeOfDay := if "timeOfDay" in attrs then attrs["timeOfDay"] else Str("");
    var greeting :- if Truthy(timeOfDay) then GetTimeOfDayMessage(timeOfDay, pick) else Ok(DefaultGreeting);
    var hasMeal :- Dicts.KeysExists(Dict(attrs), MealPath);
    if !hasMeal then Ok(WelcomeBackOpening + greeting)
    else
      match Dicts.Follow(Dict(attrs), MealPath)
      case Reached(Str(meal)) =>
        Ok(WelcomeBackOpening + greeting + MealOpening + meal + ". " + MealClosing)
      case _ => Err(TypeError)
  }

  /** `getWelcomeMessage(sessionAttributes)`: the test is inverted, so
      non-empty attributes get the first-time greeting and empty ones the
      returning-user text, whose time-of-day and meal lookups then never
      find anything. */
  function GetWelcomeMessage(attrs: map<string, Value>, pick: nat): (r: Result<string, Error>)
    ensures |attrs| > 0 ==> r == Ok(HowdyText)
    ensures |attrs| == 0 ==> r == Ok(WelcomeBackText)
  {
    if |attrs| > 0 then Ok(HowdyText)
    else
      EmptyAttributesHaveNoMeal(attrs);
      WelcomeBack(attrs, pick)
  }

  /** Empty attributes hold neither a time of day nor a previous meal. */
  lemma EmptyAttributesHaveNoMeal(attrs: map<string, Value>)
    requires |attrs| == 0
    ensures "timeOfDay" !in attrs
    ensures Dicts.KeysExists(Dict(attrs), MealPath) == Ok(false)
  {
    assert attrs == map[];
    assert MealPath[..1] == ["recommendations"];
    assert Dicts.Follow(Dict(attrs), MealPath[..1]) == Dicts.Missing by {
      assert MealPath[..1][..0] == [];
    }
    Dicts.StoppedStaysStopped(Dict(attrs), MealPath, 1);
  }

  /** `getPrompt(sessionAttributes)`. */
  function GetPrompt(attrs: map<string, Value>): string {
    if |attrs| == 0 then FlavoursPrompt else NamePrompt
  }

  /** The launch speech of both launch handlers (index.py:51, 68). */
  function LaunchSpeech(attrs: map<string, Value>, pick: nat): Result<string, Error> {
    var welcome :- GetWelcomeMessage(attrs, pick);
    Ok(welcome + " " + GetPrompt(attrs))
  }

  /** The launch speech never fails and is one of two fixed texts: the
      flavours question comes with the "Welcome back!!" text, the name
      question with the first-time greeting; the time of day and the
      previous meal never reach it. */
  lemma LaunchSpeechTexts(attrs: map<string, Value>, pick: nat)
    ensures |attrs| == 0 ==> LaunchSpeech(attrs, pick) == Ok(WelcomeBackText + " " + FlavoursPrompt)
    ensures |attrs| > 0 ==> LaunchSpeech(attrs, pick) == Ok(HowdyText + " " + NamePrompt)
  {
  }

  /** The returning-user branch would mention the previous meal, had it
      attributes to read: with a recorded meal and no time of day. */
  lemma WelcomeBackMentionsMeal(attrs: map<string, Value>, pick: nat, meal: string)
    requires "timeOfDay" !in attrs
    requires Dicts.Follow(Dict(attrs), MealPath) == Dicts.Reached(Str(meal))
    ensures WelcomeBack(attrs, pick) ==
      Ok(WelcomeBackOpening + DefaultGreeting + MealOpening + meal + ". " + MealClosing)
  {
  }

  /** With a known time of day, the returning-user branch would greet with
      one of that category's phrases. */
  lemma WelcomeBackGreetsTimeOfDay(attrs: map<string, Value>, pick: nat)
    requires "timeOfDay" in attrs && attrs["timeOfDay"].Str?
    requires attrs["timeOfDay"].text in TimeOfDayMessages
    requires Dicts.Follow(Dict(attrs), MealPath).Missing?
    ensures exists phrase ::
      phrase in TimeOfDayMessages[attrs["timeOfDay"].text] && WelcomeBack(attrs, pick) == Ok(WelcomeBackOpening + phrase)
  {
    var phrase := GetTimeOfDayMessage(attrs["timeOfDay"], pick).value;
    assert WelcomeBack(attrs, pick) == Ok(WelcomeBackOpening + phrase);
  }
}
