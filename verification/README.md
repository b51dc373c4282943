# The Foodie skill: a Dafny model of its decision logic

The Foodie is a voice-assistant skill. Its handler file routes launch,
recommendation and cancel requests, composes spoken texts, turns the
platform's filled slots into normalized records and, when a required slot
resolved to several canonical values, asks the user which one they meant.
This project models that decision logic as pure Dafny functions over
immutable datatypes and proves what each part promises.

Modules (one per concept of `lambda/eu-west-1_thefoodie/index.py`):

- `Wrappers` (`wrappers.dfy`): `Option` and `Result`. A Python exception is an `Err`.
- `Values` (`values.dfy`): JSON-shaped Python values, truthiness, hashability, and the exceptions the code can raise.
- `OrderedDicts` (`ordered_dicts.dfy`): a dictionary as its items in iteration order. Assigning to an existing key keeps its position, as a Python dict does.
- `Dicts` (`dicts.dfy`): `keysExists`, as a walk along a key path.
- `Slots` (`slots.dfy`): `getSlotValues`. The slot records use a tagged union: `resolved` is `Raw(value)` or `Names(list)`.
- `Disambiguation` (`disambiguation.dfy`): `requiredSlots`, `' or '.join`, and `disambiguateSlot`.
- `Messages` (`messages.dfy`): `getWelcomeMessage`, `getPrompt`, `getTimeOfDayMessage` and its phrase table.
- `Handlers` (`handlers.dfy`): the `can_handle` predicates and the recommendation handler's choice between eliciting a slot and delegating.

Behaviour the model keeps exactly as the code has it:

- `disambiguateSlot` never breaks out of its loop, so a later qualifying slot overwrites an earlier one and the LAST one wins.
- `requiredSlots[key]` is evaluated only after the list and length tests pass. An unknown slot name therefore raises only when that slot is ambiguous. It raises even after an earlier slot already qualified.
- The welcome test is inverted. Non-empty session attributes get the first-time "Howdy" greeting. Empty attributes get "Welcome back!!", and in that branch the time-of-day and previous-meal lookups can never succeed.
- The no-match branch stores the empty list `[]` for an empty value. This is `Names([])`, the same value as an empty list from an exact match. An unvalidated record therefore holds a list only when that list is empty.
- The guard `valuesList != 'None'` compares a list with a string and always holds. A match whose value list is absent raises TypeError when it is iterated.
- `LaunchRequestWithConsentTokenHandler.can_handle` passes the SDK's request envelope object, never a dict, to `keysExists`. Whenever it is evaluated on a launch request, the predicate therefore raises the "expects dict" AttributeError. The launch handler is registered before it and accepts launch requests first. The envelope is the `Object` value of the model.
- The stop intent is spelled "AMAZON.SetopIntent", so "AMAZON.StopIntent" reaches no handler.
- The two flavour-prompt literals are joined without a space ("...feel like?You can say...").

`random.choice` becomes an input `pick: nat`, and the chosen phrase is `phrases[pick % |phrases|]`. A lemma shows every phrase can be chosen.

## Model

| member | source | states |
|---|---|---|
| `Dicts.KeysExistsContract` | lambda/eu-west-1_thefoodie/index.py:169-184 | A non-dict element raises the "expects dict" AttributeError. A dict with no keys raises the "at least two arguments" AttributeError. Otherwise the result is true iff every successive lookup finds its key. It is false iff a lookup misses after all earlier ones succeeded, i.e. at the first missing key. It is a TypeError iff the walk first meets a non-dict value. |
| `Dicts.KeysExistsPrefix` | lambda/eu-west-1_thefoodie/index.py:169-184 | If a key path exists, every non-empty prefix of it exists. |
| `Dicts.StoppedStaysStopped` | lambda/eu-west-1_thefoodie/index.py:179-183 | Once a lookup has missed or failed, later keys do not change the outcome. |
| `OrderedDicts.Put` | lambda/eu-west-1_thefoodie/index.py:200-218 | `slot_values[name] = record` stores the record under the name and leaves the other keys' values alone. An existing key keeps its place; a new key is appended. Keys stay unique. |
| `Slots.GetSlotValues` | lambda/eu-west-1_thefoodie/index.py:186-220 | The result is a dictionary: no slot name occurs twice. |
| `Slots.GetSlotValuesRaises` | lambda/eu-west-1_thefoodie/index.py:194-204 | Extraction fails iff some slot raises: an empty authority list (IndexError) or an exact match with no value list (TypeError). The error is that of the first such slot. |
| `Slots.GetSlotValuesKeys` | lambda/eu-west-1_thefoodie/index.py:191-218 | The result's keys are exactly the `name`s of the slots that were stored. The input keys are ignored. A slot whose first authority has a status other than match or no-match leaves no entry. |
| `Slots.GetSlotValuesKeyOrder` | lambda/eu-west-1_thefoodie/index.py:191-218 | The result iterates its keys in the order their names were first stored. A later slot of the same name overwrites the entry in place and does not move it. |
| `Slots.GetSlotValuesOrder` | lambda/eu-west-1_thefoodie/index.py:191-218 | Of two slots that each store their name first, the earlier slot's name comes earlier in the result. With distinct slot names, the keys are the stored slots' names in input order. This is the order `disambiguateSlot` walks. |
| `Slots.GetSlotValuesLastWins` | lambda/eu-west-1_thefoodie/index.py:191-218 | The entry under a name is the record of the last stored slot with that name. |
| `Slots.StoredRecord` | lambda/eu-west-1_thefoodie/index.py:194-218 | No resolutions: `{value, value, false}`. Exact match in the first authority: that authority's canonical names in order, validated. No match: the raw value, or `[]` when the value is empty, unvalidated. |
| `Slots.LaterAuthoritiesIgnored` | lambda/eu-west-1_thefoodie/index.py:195-198 | Inputs that agree on each slot's name, its value, whether entity resolution is present, and its first authority give the same result, whatever the later authorities are. |
| `Slots.ResolvedListsAreMatches` | lambda/eu-west-1_thefoodie/index.py:197-210 | A validated entry holds a list of canonical names from an exact match of a slot with that name. An unvalidated entry holds a list only as `[]`. |
| `Slots.SpicyNoMatchExample` | lambda/eu-west-1_thefoodie/index.py:205-210 | A no-match slot spoken as "spicy" yields `{"spicy", "spicy", false}`, stored under the slot's name. |
| `Disambiguation.DisambiguateSlotRaises` | lambda/eu-west-1_thefoodie/index.py:225-226 | The call raises iff some slot with a list of more than one name is missing from `requiredSlots`. The error is the KeyError of the first such slot. |
| `Disambiguation.DisambiguateSlotLastWins` | lambda/eu-west-1_thefoodie/index.py:222-232 | Without lookup failures, the result is the slot name and question of the last qualifying slot. |
| `Disambiguation.DisambiguateSlotChoice` | lambda/eu-west-1_thefoodie/index.py:222-232 | Every non-empty result comes from a qualifying slot that no later slot overrides. |
| `Disambiguation.DisambiguateSlotEmpty` | lambda/eu-west-1_thefoodie/index.py:222-232 | Without lookup failures, the result is empty iff no slot is an ambiguous required slot. |
| `Disambiguation.ConfiguredTable` | lambda/eu-west-1_thefoodie/index.py:31-38 | With the configured table, a slot qualifies iff it is ambiguous and has one of the six configured names: all six are required. An ambiguous slot with any other name raises. An unambiguous one never does. |
| `Disambiguation.JoinContainsAll` | lambda/eu-west-1_thefoodie/index.py:229 | Every candidate occurs in `' or '.join(candidates)`. |
| `Disambiguation.PromptNamesAll` | lambda/eu-west-1_thefoodie/index.py:229 | The question "Which one would you like ...?" names every candidate. |
| `Disambiguation.EmptyInput` | lambda/eu-west-1_thefoodie/index.py:222-232 | An empty dictionary gives an empty result. |
| `Disambiguation.CuisineExample` | lambda/eu-west-1_thefoodie/index.py:225-230 | A required cuisine slot resolved to Italian and Thai gives `{"cuisine", "Which one would you like Italian or Thai?"}`. |
| `Messages.RandomPhrase` | lambda/eu-west-1_thefoodie/index.py:141-142 | The chosen phrase is a member of the list. An empty list raises IndexError. |
| `Messages.RandomPhraseCovers` | lambda/eu-west-1_thefoodie/index.py:141-142 | Every phrase of the list can be chosen. |
| `Messages.GetTimeOfDayMessage` | lambda/eu-west-1_thefoodie/index.py:137-166 | The call succeeds iff the category is breakfast, brunch, lunch, dinner or midnight. The result is then one of that category's phrases. An unknown category is a KeyError; a dict, list or SDK object is an unhashable-key TypeError. |
| `Messages.DinnerPhrases` | lambda/eu-west-1_thefoodie/index.py:158-161 | Dinner yields one of exactly the two dinner phrases, and each can occur. |
| `Messages.GetWelcomeMessage` | lambda/eu-west-1_thefoodie/index.py:99-124 | Non-empty attributes give the fixed "Howdy" text. Empty attributes give exactly "Welcome back!! It's time to stuff your face with delicious food. ". It never raises. |
| `Messages.EmptyAttributesHaveNoMeal` | lambda/eu-west-1_thefoodie/index.py:113-120 | In the branch taken for empty attributes, `timeOfDay` is absent and the previous-meal path does not exist. |
| `Messages.LaunchSpeechTexts` | lambda/eu-west-1_thefoodie/index.py:126-135 | The launch speech is the "Welcome back!!" text with the flavours question when attributes are empty. Otherwise it is the "Howdy" text with the name question. |
| `Messages.WelcomeBackMentionsMeal` | lambda/eu-west-1_thefoodie/index.py:120-122 | If the returning-user branch saw a recorded meal and no time of day, it would say the default greeting and then mention that meal. |
| `Messages.WelcomeBackGreetsTimeOfDay` | lambda/eu-west-1_thefoodie/index.py:113-116 | If the returning-user branch saw a known time of day and no meal, it would greet with one of that category's phrases. |
| `Handlers.ConsentHandlerRaisesOnLaunch` | lambda/eu-west-1_thefoodie/index.py:56-61 | With the program's envelope, an SDK object and not a dict, the predicate raises the "expects dict" AttributeError iff the request is a launch request, and declines every other request. |
| `Handlers.ConsentTest` | lambda/eu-west-1_thefoodie/index.py:56-61 | For any envelope value: a non-launch request is declined, and a launch request with a non-dict envelope raises the "expects dict" AttributeError. The program never reaches the dict-envelope case; there the test would be exactly the existence of the consent-token path, the permissions test being implied. |
| `Handlers.HandlerPredicates` | lambda/eu-west-1_thefoodie/index.py:89-92 | "AMAZON.StopIntent" is accepted by none of the four handlers, the consent handler included. The launch, recommendation and cancel predicates never accept the same request. |
| `Handlers.ElicitedSlotWasAmbiguousMatch` | lambda/eu-west-1_thefoodie/index.py:77-87 | An elicited slot is a configured slot whose first authority matched exactly with more than one canonical name. The speech is the question naming those names. |
| `Handlers.DelegateIffUnambiguous` | lambda/eu-west-1_thefoodie/index.py:80-85 | The handler delegates iff slot extraction succeeds and no extracted slot holds a list of more than one name. It raises iff extraction raises or some such slot's name is not in `requiredSlots`. |

## Left out

- SDK plumbing is not modelled: the skill builder, handler registration, the lambda entry point, the response builder, cards, the directive objects and logging (index.py:3-26, 234-243). These are foreign library calls.
- Handler dispatch order is not modelled. Which registered handler wins is decided by the SDK; the model only states the predicates.
- The SDK's reaction to the consent handler raising is not modelled. `ConsentHandlerRaisesOnLaunch` states only that the predicate raises.
- The `requests` and `json` imports are not modelled. They are unused.
- True randomness is not modelled. `random.choice` is the input `pick`.
- SSML is not modelled. The markup stays inside the string constants as opaque text.
- `None` session attributes are not modelled. Session attributes are a possibly empty map.
- An intent with no slots at all (`slots` is `None`) is not modelled. The slots are a possibly empty dictionary.
- A missing resolution status is not modelled. Every authority carries a status code, although `.status.code` at index.py:195 would raise AttributeError on a `None` status.
- A `None` `resolutions_per_authority` list is not modelled. Every present resolutions object carries a list, possibly empty.
- Value objects are reduced to their names. A resolution value is modelled by its canonical name (`value.name`) only.
