# OptimaBank loyalty core in Dafny

OptimaBank is a points-based loyalty programme: a Django back end plus a React front end.
This project models its core and proves properties of the model:

- **Ledger** (`ledger.dfy`): the shopping and redemption views of `accounts/views.py`.
  These are the points balance of a user profile, the cart (add, update, remove), single
  voucher redemption, cart checkout, tier activities, the daily login bonus and marking
  notifications read. One user's state is a `Store` object. The random coupon draws and
  the PDF outcome are parameters.
- **Catalog** (`catalog.dfy`): the cart total, coupon-code generation, the parsing of a
  promotion's `active_days`, and the filtering and ordering of the voucher list.
- **Tiers** (`tiers.dfy`): the reward-tier table, tier progress, points to the next tier,
  and `check_tier_upgrade`. That method climbs one tier per call and recurses. A
  `UserTier` object holds the tier row, and the row last saved to the database is kept
  apart from the row in memory.
- **Notices** (`notices.dfy`): the notification inbox the views write to.
- **Otp** (`otp.dfy`): registration, OTP request and OTP verification of `users/views.py`,
  over an `AuthStore` of users and OTP rows.
- **Chatbot** (`chatbot.dfy`): keyword parsing, the scoring loop of `find_best_response` and
  the reply cascade of `generate_contextual_response`.
- **Translation** (`translation.dfy`): the language provider of the front end. This covers
  the saved language, `setLanguage`, and the translation function `t` with its English
  fallback and `{{name}}` substitution.
- **Schedule** (`schedule.dfy`): the time-zone promotions, regional vouchers, business
  hours and the next promotion of the front end's time-zone context.
- **VoucherText** (`voucher_text.dfy`): the two management commands that escape and
  validate voucher text.
- **Text** and **Sorting** (`text.dfy`, `sorting.dfy`): the string and list primitives the
  code relies on. These are `lower`, `split`, `strip`, `int()`, `str()`, `replace`,
  string comparison, the word regex `\b\w+\b`, and a sort by a comparison.

Views that update rows in place become class methods with `modifies` clauses. Pure helpers
become functions, and each is paired with lemmas that state what it means. Times of day are
`HH:MM` strings compared as strings, the way the front end compares them. Timestamps are
integers. Clocks, random draws and the PDF generator's result are passed in as parameters.

## Model

| member | source | states |
|---|---|---|
| Catalog.CartTotal | accounts/models.py:100-108 | An empty cart costs nothing, and a cart of non-negative quantities at non-negative prices has a non-negative total |
| Catalog.CartTotalAppend | accounts/models.py:100-108 | The total of two item lists put together is the sum of their totals |
| Catalog.CartTotalFrame | accounts/models.py:100-108 | The total depends only on the point prices of the vouchers in the cart |
| Catalog.FirstFreshDraw | accounts/models.py:151-160 | The code the generator settles on is one of the draws, is not in use, and has the generator's shape |
| Catalog.FirstFreshDrawAt | accounts/models.py:151-160 | A draw that is not in use, preceded only by draws in use, is the code the generator settles on |
| Catalog.GenerateCouponCode | accounts/models.py:151-160 | The drawing loop returns the first candidate that no redemption uses. It has 8 characters from A-Z and 0-9, and every earlier candidate was already taken |
| Catalog.SaveRedemption | accounts/models.py:145-149 | A redemption that already has a code keeps it. One without a code gets the generator's first unused draw, and nothing else changes |
| Catalog.NonEmpty | accounts/models.py:75 | The `if x != ''` filter keeps no empty piece and never grows the list. `NonEmptyMembers` and `NonEmptyAppend` state which pieces it keeps and that their order is kept |
| Catalog.NonEmptyMembers | accounts/models.py:75 | The filter keeps exactly the non-empty pieces: a string is in the result if and only if it is a non-empty piece |
| Catalog.NonEmptyAppend | accounts/models.py:75 | The filter works piece by piece, so the pieces it keeps stay in their order |
| Catalog.ParseAll | accounts/models.py:74-77 | When the whole list parses, there is one number per piece |
| Catalog.ParseAllSome | accounts/models.py:74-77 | Each parsed number is the value `int()` gives its piece |
| Catalog.ParseAllNone | accounts/models.py:74-77 | One piece that `int()` rejects makes the whole parse fail, which is the exception path |
| Catalog.ActiveDayIndices | accounts/models.py:73-77 | `active_day_indices`: split on commas, drop empty pieces, convert the rest, or an empty list on a conversion error. `ActiveDayIndicesSpec` states its result |
| Catalog.ActiveDayIndicesSpec | accounts/models.py:73-77 | `active_day_indices` gives, in order, the value of every non-empty comma piece when all parse, and an empty list as soon as one does not |
| Catalog.ActiveDaysRoundTrip | accounts/models.py:60-77 | Writing day numbers as a comma-separated string (the `"0,1,2,3,4"` format) and reading them back gives the same days |
| Catalog.Selected | accounts/views.py:174-186 | The listed vouchers are exactly the active ones that match the category filter ("All Vouchers" or none means any) and the case-insensitive title/description search |
| Catalog.ListedBeforeIsTotalPreorder | accounts/views.py:188 | The ordering `-featured, -created_at` is total and transitive, so it is a valid sort order |
| Catalog.VoucherList | accounts/views.py:172-188 | `voucher_list`: the filtered vouchers sorted by `-featured, -created_at`. `VoucherListSpec` states its result |
| Catalog.VoucherListSpec | accounts/views.py:172-188 | `voucher_list` returns a permutation of the filtered vouchers, and the result is sorted featured-first and newest-first |
| Catalog.FeaturedFirst | accounts/views.py:188 | No unfeatured voucher comes before a featured one |
| Ledger.HttpStatus | accounts/views.py:295-538 | The "not found" failures answer 404, a missing tier setup answers 500, and every other failure answers 400 |
| Ledger.FindVoucherItem | accounts/views.py:313-321 | Finds the cart item for a voucher, or shows that the cart has none |
| Ledger.FindItem | accounts/views.py:343-347 | Finds the cart item with a given id, or shows that the cart has none (the 404 case) |
| Ledger.CartAfterAddSpec | accounts/views.py:313-321 | The add-to-cart step keeps one item per voucher, raises that voucher's quantity by the amount added, and leaves other vouchers alone |
| Ledger.CumulativeQuantityNotRechecked | accounts/views.py:306-321 | The stock check compares only the amount being added, so two adds of 3 against a stock of 5 leave 6 in the cart |
| Ledger.FirstShort | accounts/views.py:480-485 | Finds the first cart item whose voucher lacks stock, or shows that every item is covered |
| Ledger.FirstShortIsFirst | accounts/views.py:480-485 | Characterises the first short item by its position, which is what the checkout loop reports |
| Ledger.Debit | accounts/views.py:500-502 | Reducing stock for a list of items keeps the set of vouchers |
| Ledger.DebitAt | accounts/views.py:500-502 | In a cart with distinct vouchers, each item's voucher loses exactly that item's quantity |
| Ledger.DebitUntouched | accounts/views.py:489-502 | Vouchers that are not in the cart keep their stock |
| Ledger.DebitKeepsPoints | accounts/views.py:489-502 | Checkout never changes a voucher's point price |
| Ledger.CheckoutChargesCartTotal | accounts/views.py:469-496 | The points recorded on the checkout's redemptions add up to the cart total that is taken from the balance |
| Ledger.DebitKeepsStock | accounts/views.py:480-502 | Checkout runs only when no item is short, so with one item per voucher no stock goes negative |
| Ledger.AppendFreshCode | accounts/models.py:135 | Adding a redemption with an unused code keeps coupon codes unique |
| Ledger.CodesOfSnoc | accounts/models.py:145-160 | The codes in use after one more redemption are the earlier codes plus its code |
| Ledger.StreamStillFresh | accounts/models.py:151-160 | Once an item takes the first unused draw of its stream, that code is in use for every later item, and each later stream still holds a code outside the codes in use |
| Ledger.SharedStreamsAccepted | accounts/models.py:151-160 | Streams may share candidates: a later item whose stream repeats an earlier item's code skips it and takes its next draw |
| Ledger.StoredTierRowSpec | accounts/models.py:364-382 | An activity that earns an upgrade stores the credited total and the highest tier reached. One that does not leaves the stored tier row exactly as it was |
| Ledger.SmallActivitiesNeverPersist | accounts/models.py:378-382 | Any number of activities that each stay below the next threshold never change the stored tier row |
| Ledger.LoginBonusesNeverReachSilver | accounts/views.py:771-810 | However many daily 10-point login bonuses a Bronze user with no points collects, the stored tier row stays at Bronze with 0 points |
| Ledger.RedeemItem | accounts/views.py:489-512 | One checkout item gets a redemption whose code is the first unused draw of its stream. It records the item's points and quantity, the PDF outcome and a completion time, and its voucher loses that quantity |
| Ledger.RecordSnoc | accounts/views.py:489-512 | One more item's redemption, with a code outside every code in use, extends the checkout records and keeps coupon codes unique |
| Ledger.Fulfil | accounts/views.py:489-526 | The checkout's atomic block debits every item's stock and records one completed redemption per item. Each item's code is the first draw of its stream that neither an existing redemption nor an earlier item uses, so all codes stay unique |
| Ledger.Store.GetUserProfile | accounts/views.py:156-158 | Returns the stored balance, or creates the profile with the views' 10000-point default |
| Ledger.Store.AddToCart | accounts/views.py:295-333 | Covers a missing id (400), an unknown or inactive voucher (404) and a quantity above stock (400). On success the cart is the add-to-cart result and one notice is appended. Failures change nothing |
| Ledger.Store.UpdateCartItem | accounts/views.py:337-362 | A quantity below 1 or missing, an unknown item, and a quantity above stock all fail and change nothing. Otherwise only that item's quantity becomes the new value |
| Ledger.Store.RemoveFromCart | accounts/views.py:366-377 | Fails, with the cart unchanged, exactly when the item is absent. Otherwise it removes exactly that item |
| Ledger.Store.RedeemVoucher | accounts/views.py:382-454 | Missing id, unknown voucher, too few points and too little stock are checked in that order, and it succeeds exactly when none applies. Success debits points and stock, appends one completed redemption whose code is the first unused draw, returns the receipt and notifies. Failures change nothing but the profile's creation |
| Ledger.Store.FindShortItem | accounts/views.py:480-485 | The checkout loop's stock check finds the first short item |
| Ledger.Store.CompleteCheckout | accounts/views.py:487-538 | Charges the total, debits stock (none goes negative), appends the recorded redemptions, empties the cart and sends one checkout notice |
| Ledger.Store.CheckoutCart | accounts/views.py:458-538 | An empty cart, too few points and the first short item are reported in that order. Success happens exactly when points and stock suffice, and then does everything `CompleteCheckout` states. Failures leave stock, redemptions, cart and notices unchanged |
| Ledger.Store.RecordActivity | accounts/models.py:364-382 | Appends the activity, credits the profile (created with the model default of 0), and fails only when there is neither a tier row nor a level-1 tier. Otherwise it stores the tier row that `StoredTierRow` gives and one notice per tier climbed |
| Ledger.Store.AddTierActivity | accounts/views.py:739-767 | A missing activity type changes nothing. Otherwise the activity is recorded as `RecordActivity` states |
| Ledger.Store.SimulateLoginActivity | accounts/views.py:771-810 | A second login on the same day changes nothing. The first one records a 10-point login activity. Either way, today counts as logged in afterwards |
| Ledger.Store.MarkNotificationsRead | accounts/views.py:561-567 | Every notification is marked read and nothing else about the list changes |
| Ledger.NegativeRedeemQuantity | accounts/views.py:385-424 | The quantity is never checked to be positive: redeeming -1 of a 500-point voucher with 3 in stock succeeds, leaves a new user with 10500 points and the voucher with 4 in stock |
| Ledger.NegativeActivityPoints | accounts/views.py:743-757 | The activity's points are passed on unchecked: a new user's -50-point activity succeeds and leaves a balance of -50 |
| Notices.MarkedRead | accounts/views.py:564 | The same notifications, all marked read |
| Notices.Inbox.Create | accounts/views.py:165-167 | Appends one unread notification |
| Notices.Inbox.MarkAllRead | accounts/views.py:564 | Marks every notification read and keeps their text and order |
| Tiers.TierAt | accounts/models.py:204-206 | The tier found has the level asked for |
| Tiers.TierAtNone | accounts/models.py:204-206 | No tier is found exactly when the table has none at that level |
| Tiers.NextTier | accounts/models.py:204-206 | The next tier is the table's tier one level up |
| Tiers.TierProgress | accounts/models.py:225-239 | 100 at the top tier or past the next threshold, and 0 at or below the current threshold. In between it is the linear share of the gap, clamped to [0, 100]. A zero-width gap is the division error |
| Tiers.Clamp | accounts/models.py:239 | The result lies in [0, 100] and values already in range are kept |
| Tiers.PointsToNextTier | accounts/models.py:241-248 | 0 at the top tier. Otherwise exactly the points still missing to the next threshold, or 0 when it is passed |
| Tiers.ProgressCompleteIffNoPointsLeft | accounts/models.py:225-248 | Progress reads 100% exactly when no points are left to earn |
| Tiers.Stepped | accounts/models.py:264-269 | One upgrade step keeps the lifetime points |
| Tiers.UpgradeNotices | accounts/models.py:279-282 | One notice per tier climbed |
| Tiers.NoUpgrade | accounts/models.py:250-260 | Without a next tier, or below its threshold, the check changes nothing |
| Tiers.UpgradeStep | accounts/models.py:260-288 | Reaching the next threshold moves one level up, sends that tier's notice, and then checks again. The number of tiers above strictly falls, which is why the recursion ends |
| Tiers.AfterCheck | accounts/models.py:250-288 | The recursive check never changes the lifetime points and never lowers the level |
| Tiers.AfterCheckResult | accounts/models.py:250-288 | The row is unchanged exactly when no tier is climbed. Otherwise it ends at the last tier climbed, with tier points counted from that tier's threshold and the upgrade time set |
| Tiers.ClimbLevels | accounts/models.py:250-288 | The tiers climbed are consecutive levels of the table, and each has a threshold the points reach |
| Tiers.AfterCheckSettled | accounts/models.py:284-288 | After the check, the points are below the next tier's threshold or there is no next tier |
| Tiers.SettledClimbsNothing | accounts/models.py:250-260 | A settled row climbs no tier |
| Tiers.SecondCheckIsNoOp | accounts/models.py:250-288 | Running the check again right away changes nothing and climbs nothing |
| Tiers.TierAtWellFormed | accounts/models.py:204-206 | In a table of levels 1..n, level k is the k-th tier and other levels are absent |
| Tiers.CheckReachesHighestQualifyingTier | accounts/models.py:250-288 | In a table of levels 1..n with rising thresholds, the check ends at the highest tier whose threshold the lifetime points reach |
| Tiers.PopulatedTiers | accounts/management/commands/populate_tiers.py:10-49 | The four seeded tiers (Bronze 0, Silver 1000, Gold 5000, Platinum 15000) have levels 1..4 and rising thresholds |
| Tiers.BronzeToGoldExample | accounts/models.py:250-288 | A Bronze row with 6000 points climbs Silver and then Gold in one check, ending with 1000 tier points |
| Tiers.UserTier.Credit | accounts/models.py:378-379 | Both point counters grow by the amount, and the saved row does not change |
| Tiers.UserTier.Save | accounts/models.py:269 | The saved row becomes the row in memory |
| Tiers.UserTier.CheckTierUpgrade | accounts/models.py:250-288 | The row becomes the result of the recursive check. It reports an upgrade exactly when a tier is climbed, saves only then, and sends one notice per tier climbed |
| Chatbot.StripNonEmptyShape | chatbot/models.py:68 | Stripped, non-empty keywords have no surrounding whitespace and never outnumber the pieces |
| Chatbot.KeywordList | chatbot/models.py:65-68 | `keyword_list`: comma pieces, stripped, empty ones dropped. `KeywordListShape` and `KeywordListRoundTrip` state its result |
| Chatbot.KeywordListShape | chatbot/models.py:65-68 | Every keyword is non-empty, has no surrounding whitespace and holds no comma |
| Chatbot.StripNonEmptyAppend | chatbot/models.py:68 | The keyword comprehension works piece by piece |
| Chatbot.KeywordListBound | chatbot/models.py:68 | There are at most one more keywords than commas |
| Chatbot.Spaced | chatbot/models.py:68 | Puts one space in front of each keyword, the form stored after ", " |
| Chatbot.KeywordListRoundTrip | chatbot/models.py:65-68 | Writing keywords as "a, b, c" and reading them back gives exactly those keywords |
| Chatbot.StripSpaced | chatbot/models.py:68 | Stripping space-led keywords gives the keywords back |
| Chatbot.WordsShape | chatbot/views.py:40 | Every word the `\b\w+\b` search finds is a non-empty run of word characters |
| Chatbot.WordsOfWord | chatbot/views.py:40 | A single word is found as itself |
| Chatbot.WordsSeparated | chatbot/views.py:40 | A non-word character splits the text into two independently searched parts |
| Chatbot.Score | chatbot/views.py:32-47 | The score of one entry: priority per keyword hit, one per question word, and twice the priority again on any hit. `KeywordHitScore` and `EntryScore` state its meaning |
| Chatbot.KeywordScoreBounds | chatbot/views.py:34-37 | With a non-negative priority, the keyword score lies between 0 and priority times the number of keywords, and is at least one priority when any keyword hits |
| Chatbot.KeywordScoreMiss | chatbot/views.py:34-37 | No keyword hit means a keyword score of 0 |
| Chatbot.KeywordHitScore | chatbot/views.py:32-47 | Any keyword hit earns at least three times the priority. Without one, only the question words count |
| Chatbot.EntryScore | chatbot/views.py:32-47 | The scoring loop computes the entry's score |
| Chatbot.BestIsUnique | chatbot/views.py:49-51 | At most one entry is the best match (the earliest highest positive score wins ties) |
| Chatbot.BestOrNoMatch | chatbot/views.py:28-53 | A best match rules out "no entry scores above 0" |
| Chatbot.Consider | chatbot/views.py:49-51 | One loop step keeps the running best correct for the entries seen so far |
| Chatbot.ScanDecides | chatbot/views.py:28-53 | After the loop there is no match exactly when no active entry scores above 0. Otherwise the kept entry is the best |
| Chatbot.FindBestResponse | chatbot/views.py:21-53 | Returns nothing exactly when no active entry scores above 0, and otherwise the unique best entry |
| Chatbot.TopicReplyIff | chatbot/views.py:61-80 | A canned topic reply is given exactly when the message mentions a word of one of the six topic groups |
| Chatbot.PointsTakePrecedence | chatbot/views.py:61-65 | A points question always gets the balance reply. Other topics do not depend on the profile |
| Chatbot.BalanceShown | chatbot/views.py:63 | The balance reply contains the user's points |
| Chatbot.CannedRepliesNonEmpty | chatbot/views.py:61-98 | Every canned reply is non-empty |
| Chatbot.SubstringGreeting | chatbot/views.py:88-89 | Greetings match as substrings, so "this" is answered as a greeting because it contains "hi" |
| Chatbot.GenerateContextualResponse | chatbot/views.py:56-98 | The first matching topic group answers. Otherwise the best knowledge-base entry answers, and otherwise the greeting, thanks, goodbye or default reply |
| Otp.HttpStatus | users/views.py:86-150 | An unknown user answers 404 and every other failure answers 400 |
| Otp.OtpCodeShape | users/views.py:23-33 | A draw from [100000, 999999] gives a six-digit code with no leading zero that reads back as the draw |
| Otp.FindUser | users/views.py:96 | Finds the first user with the email, or shows that there is none |
| Otp.LatestOtp | users/views.py:139-140 | Finds the user's OTP with the latest creation time, the last inserted among ties, or shows that the user has none |
| Otp.LatestByTimes | users/views.py:139-140 | Which OTP is latest depends only on owners and creation times |
| Otp.LatestIgnoresUse | users/views.py:139-148 | Marking an OTP used does not change which OTP is latest |
| Otp.NewestIsLatest | users/views.py:139-140 | A code created no earlier than its user's other OTPs is the latest |
| Otp.AuthStore.GenerateOtp | users/views.py:23-33 | Appends an unused OTP for the user, coded by the draw and stamped now |
| Otp.AuthStore.RegisterUser | users/views.py:47-78 | All five fields are required and the email must be unused. Otherwise exactly one user is added, and failures add none |
| Otp.AuthStore.RequestOtp | users/views.py:86-115 | A missing email (400) and an unknown email (404) create nothing. A known email gets exactly one fresh OTP |
| Otp.AuthStore.VerifyOtp | users/views.py:120-150 | Succeeds exactly when the user's latest OTP matches, is unused and is at most 300 seconds old. Success marks only that OTP used, and failures change nothing |
| Otp.IsOtpValid | users/views.py:36-39 | `is_otp_valid`: the code matches, is unused and is at most 300 seconds old. `ExpiryBoundary` states the bound |
| Otp.ExpiryBoundary | users/views.py:36-39 | A code is valid up to and including 300 seconds after creation, and not one second later |
| Otp.VerifiedCodeIsSpent | users/views.py:146-150 | After a successful verification, no code verifies until a new OTP is requested |
| Otp.OlderCodeIgnored | users/views.py:138-144 | Once a newer OTP exists, an older, still-valid code is rejected |
| Otp.FreshCodeVerifies | users/views.py:23-39 | A freshly requested code verifies within five minutes, provided the clock has not gone backwards |
| Translation.InitialLanguage | optimabank-loyalty/src/contexts/LanguageContext.tsx:41-48 | A saved value that is one of the six codes is used, and anything else gives English |
| Translation.LanguageProvider.SetLanguage | optimabank-loyalty/src/contexts/LanguageContext.tsx:50-56 | Switches language and saves its code |
| Translation.ReloadKeepsLanguage | optimabank-loyalty/src/contexts/LanguageContext.tsx:41-56 | After a reload, the saved choice comes back as the same language |
| Translation.Resolve | optimabank-loyalty/src/contexts/LanguageContext.tsx:65-81 | The value at the path in the current language, or in English when the path breaks off. `FallsBackToEnglish` states the fallback |
| Translation.WalkAppend | optimabank-loyalty/src/contexts/LanguageContext.tsx:65-81 | Walking a dotted path is walking its first part and then the rest |
| Translation.PlaceholderAt | optimabank-loyalty/src/contexts/LanguageContext.tsx:92 | A recognised `{{name}}` has a non-empty name and fits in the text |
| Translation.Substitute | optimabank-loyalty/src/contexts/LanguageContext.tsx:91-95 | Replaces each `{{name}}` left to right. `SubstitutePlain` and `SubstitutePlaceholder` state its meaning |
| Translation.SubstituteNoParams | optimabank-loyalty/src/contexts/LanguageContext.tsx:91-95 | With an empty parameter object every placeholder stays, so the text is unchanged |
| Translation.SubstitutePlain | optimabank-loyalty/src/contexts/LanguageContext.tsx:92-94 | Text without a `{` passes through substitution unchanged |
| Translation.SubstitutePlaceholder | optimabank-loyalty/src/contexts/LanguageContext.tsx:92-94 | `{{name}}` becomes the parameter's value when it is given and non-empty, and otherwise stays as written |
| Translation.TranslateSpec | optimabank-loyalty/src/contexts/LanguageContext.tsx:60-95 | What `t(key, params)` returns. `FoundInCurrent`, `NonStringInCurrent`, `FallsBackToEnglish` and `MissingGivesKey` state its cases |
| Translation.Translate | optimabank-loyalty/src/contexts/LanguageContext.tsx:58-98 | The walk, fallback and substitution loop computes the specified translation |
| Translation.FoundInCurrent | optimabank-loyalty/src/contexts/LanguageContext.tsx:60-97 | A string found in the current language is returned, with parameters substituted when given |
| Translation.NonStringInCurrent | optimabank-loyalty/src/contexts/LanguageContext.tsx:83-86 | A key that leads to a section rather than a string returns the key |
| Translation.FallsBackToEnglish | optimabank-loyalty/src/contexts/LanguageContext.tsx:68-79 | A path that breaks off in the current language is translated as in English |
| Translation.MissingGivesKey | optimabank-loyalty/src/contexts/LanguageContext.tsx:74-77 | A key missing in both the current language and English returns the key |
| Translation.TopLevelKey | optimabank-loyalty/src/contexts/LanguageContext.tsx:60-97 | An undotted key names a top-level string |
| Translation.NestedKeyWithParam | optimabank-loyalty/src/contexts/LanguageContext.tsx:58-98 | A `section.name` key with one parameter resolves and substitutes, for any section, name and value |
| Schedule.ActivePromotions | optimabank-loyalty/src/contexts/TimezoneContext.tsx:196-207 | The filter never adds promotions |
| Schedule.ActivePromotionsSpec | optimabank-loyalty/src/contexts/TimezoneContext.tsx:186-210 | A promotion is active exactly when it covers the zone and the day and the time lies in its window, bounds included |
| Schedule.RegionalVouchers | optimabank-loyalty/src/contexts/TimezoneContext.tsx:230-242 | The filter never adds vouchers |
| Schedule.RegionalVouchersSpec | optimabank-loyalty/src/contexts/TimezoneContext.tsx:221-243 | Global vouchers are always offered. A regional one is offered exactly when it covers the zone and the time lies in its window, if it has one |
| Schedule.FindHours | optimabank-loyalty/src/contexts/TimezoneContext.tsx:246 | Finds the zone's business hours, or shows that there are none |
| Schedule.IsBusinessHours | optimabank-loyalty/src/contexts/TimezoneContext.tsx:245-270 | A zone without hours is always open. At weekends the weekend window applies and no window means closed. On weekdays the weekday window applies |
| Schedule.WeekdayIgnoresWeekend | optimabank-loyalty/src/contexts/TimezoneContext.tsx:267-269 | On a weekday the weekend window plays no part |
| Schedule.ForZone | optimabank-loyalty/src/contexts/TimezoneContext.tsx:284 | Exactly the promotions that cover the zone |
| Schedule.StartsNoLaterIsTotalPreorder | optimabank-loyalty/src/contexts/TimezoneContext.tsx:285 | Ordering by start time is a valid sort order |
| Schedule.FirstLaterToday | optimabank-loyalty/src/contexts/TimezoneContext.tsx:288-292 | Finds the first promotion running today that starts after now, or shows that there is none |
| Schedule.FirstOnDay | optimabank-loyalty/src/contexts/TimezoneContext.tsx:294-300 | Finds the first promotion in the list that runs on the given day, or shows that there is none |
| Schedule.FirstOnDayEarliest | optimabank-loyalty/src/contexts/TimezoneContext.tsx:285-300 | In a list sorted by start time, the first promotion on a day starts no later than any other on that day |
| Schedule.NextPromotion | optimabank-loyalty/src/contexts/TimezoneContext.tsx:272-303 | The first zone promotion starting later today, else the first one running tomorrow, from the list sorted by start time. `NextPromotionSpec` and the two `NextPromotionEarliest` lemmas state its result |
| Schedule.NextPromotionSpec | optimabank-loyalty/src/contexts/TimezoneContext.tsx:272-303 | The next promotion covers the zone. It starts later today when any does, and otherwise runs tomorrow. There is none exactly when no zone promotion qualifies either way. `NextPromotionEarliest` and `NextPromotionEarliestTomorrow` state that it is the earliest-starting one in each case |
| Schedule.NextPromotionEarliest | optimabank-loyalty/src/contexts/TimezoneContext.tsx:283-292 | No qualifying promotion later today starts before the one returned |
| Schedule.NextPromotionEarliestTomorrow | optimabank-loyalty/src/contexts/TimezoneContext.tsx:283-300 | When nothing starts later today, a promotion is returned as soon as one runs tomorrow, and no zone promotion running tomorrow starts before it |
| Schedule.ShippedFlagIgnored | optimabank-loyalty/src/contexts/TimezoneContext.tsx:74-83 | Every shipped promotion is flagged inactive, yet the lunch promotion is listed as active in Paris on weekdays between 12:00 and 14:00 |
| Schedule.ParisAlwaysOpen | optimabank-loyalty/src/contexts/TimezoneContext.tsx:112-137 | The business-hours table has no Paris entry, so Paris counts as open at every time |
| Sorting.SortBySorted | accounts/views.py:188 | Sorting by a total preorder gives a sorted list |
| Sorting.SortByMembers | accounts/views.py:188 | Sorting neither adds nor drops elements |
| Text.Lower | chatbot/views.py:23 | Lower-casing keeps the length and maps every character through its lower-case form |
| Text.Split | chatbot/models.py:68 | `split(',')` gives at least one piece and no piece holds the separator |
| Text.SplitLength | chatbot/models.py:68 | `split(',')` gives one more piece than there are commas |
| Text.SplitJoin | chatbot/models.py:68 | Splitting a join of separator-free pieces gives the pieces back |
| Text.JoinSplit | chatbot/models.py:68 | Joining the pieces of a split with the separator gives the text back |
| Text.Strip | chatbot/models.py:68 | `str.strip()`: trims the ASCII whitespace `str.isspace()` accepts from both ends. `StripSpec` states its result |
| Text.StripSpec | chatbot/models.py:68 | `strip()` removes leading and trailing whitespace only, and keeps the middle |
| Text.ParseInt | accounts/models.py:75 | `int()` on a string: optional whitespace, sign and underscores between digits, or failure. `ParseIntOfDigits` and `ParseIntOfNatToString` state its meaning |
| Text.NatToString | users/views.py:25 | The decimal text of a number has only digits |
| Text.NatToStringLength | users/views.py:25 | A number in [10^k, 10^(k+1)) has k+1 digits |
| Text.ParseIntOfNatToString | accounts/models.py:75 | `int(str(n))` gives n back |
| Text.ParseIntOfDigits | accounts/models.py:75 | `int()` reads a digit string as its decimal value |
| Text.StrLeTotal | optimabank-loyalty/src/contexts/TimezoneContext.tsx:204 | Any two times compare one way or the other |
| Text.StrLeTransitive | optimabank-loyalty/src/contexts/TimezoneContext.tsx:204 | String order on times is transitive |
| Text.StrLeAntisymmetric | optimabank-loyalty/src/contexts/TimezoneContext.tsx:204 | Times that compare both ways are equal |
| Text.ReplaceCharRemoves | accounts/management/commands/fix_voucher_html_chars.py:30 | After `replace(c, r)` with `c` not in `r`, no `c` remains |
| Text.ReplaceCharKeeps | accounts/management/commands/fix_voucher_html_chars.py:30 | Characters other than the one replaced survive `replace` |
| Text.ReplaceCharAppend | accounts/management/commands/fix_voucher_html_chars.py:30 | `replace` works piece by piece |
| VoucherText.HasSpecialIff | accounts/management/commands/fix_voucher_html_chars.py:28-31 | A field needs fixing exactly when it contains one of `& < > " '` |
| VoucherText.Escape | accounts/management/commands/fix_voucher_html_chars.py:11-31 | The five replacements applied in table order. `EscapeRemovesSpecials` and `EscapeEntitiesOnly` state its result |
| VoucherText.EscapeRemovesSpecials | accounts/management/commands/fix_voucher_html_chars.py:11-31 | After escaping, no `<`, `>`, `"` or `'` remains |
| VoucherText.EscapeEntitiesOnly | accounts/management/commands/fix_voucher_html_chars.py:11-31 | After escaping, every `&` starts one of the five entities |
| VoucherText.EscapeNoSpecial | accounts/management/commands/fix_voucher_html_chars.py:28-31 | A field without special characters is left as it is |
| VoucherText.EscapeChanges | accounts/management/commands/fix_voucher_html_chars.py:28-31 | A field with a special character becomes longer and contains `&` |
| VoucherText.AmpersandStays | accounts/management/commands/fix_voucher_html_chars.py:12-30 | Once `&` is introduced, later replacements keep one |
| VoucherText.EscapeNotIdempotent | accounts/management/commands/fix_voucher_html_chars.py:28-30 | Running the command again re-escapes its own entities, so an already fixed field changes again |
| VoucherText.EscapeField | accounts/management/commands/fix_voucher_html_chars.py:26-31 | The per-field replacement loop computes the escaped text and sets the updated flag exactly when the field had a special character or the flag was already set |
| VoucherText.FixedChangesIff | accounts/management/commands/fix_voucher_html_chars.py:22-57 | A voucher changes exactly when one of its three fields needs fixing |
| VoucherText.FixVoucher | accounts/management/commands/fix_voucher_html_chars.py:22-53 | Escapes all three fields and reports whether any needed it |
| VoucherText.CountNeedingFix | accounts/management/commands/fix_voucher_html_chars.py:55-57 | The fixed count never exceeds the number of vouchers |
| VoucherText.FixHtmlChars | accounts/management/commands/fix_voucher_html_chars.py:19-57 | Every voucher is replaced by its escaped form. A voucher is saved (changes) exactly when it needed fixing, and the count is the number of such vouchers |
| VoucherText.FieldIssue | accounts/management/commands/validate_vouchers.py:31-37 | A field raises at most one text issue |
| VoucherText.AppendIf | accounts/management/commands/validate_vouchers.py:17-26 | A conditional append adds the issue exactly when the condition holds |
| VoucherText.FieldIssueSpec | accounts/management/commands/validate_vouchers.py:31-51 | A field is reported for HTML exactly when it has `<` or `>`. Otherwise it is reported for loose ampersands exactly when an `&` survives deleting the five entities |
| VoucherText.BasicIssuesSpec | accounts/management/commands/validate_vouchers.py:16-26 | Each required-field, points and quantity issue is raised exactly when its condition holds |
| VoucherText.Issues | accounts/management/commands/validate_vouchers.py:13-51 | The voucher's issue list in the command's order. `IssuesSpec` states its contents |
| VoucherText.IssuesSpec | accounts/management/commands/validate_vouchers.py:13-51 | A voucher's issue list holds exactly the issues whose conditions hold, at most eight |
| VoucherText.IssueRaised | accounts/management/commands/validate_vouchers.py:13-51 | An issue is listed exactly when its condition holds |
| VoucherText.IssuesEmpty | accounts/management/commands/validate_vouchers.py:53-59 | A voucher has no issues exactly when it is not flagged |
| VoucherText.ValidateVoucher | accounts/management/commands/validate_vouchers.py:13-59 | The per-voucher checks build the issue list, which is empty exactly when the voucher is not flagged |
| VoucherText.CountFlagged | accounts/management/commands/validate_vouchers.py:53-54 | The issue count never exceeds the number of vouchers |
| VoucherText.ValidateVouchers | accounts/management/commands/validate_vouchers.py:10-59 | `issues_found` is the number of flagged vouchers |
| VoucherText.DeleteEntity | accounts/management/commands/validate_vouchers.py:35 | Deleting one entity from a text whose `&`s all start entities leaves a text whose `&`s start the remaining entities |
| VoucherText.NoEntitiesNoAmpersand | accounts/management/commands/validate_vouchers.py:35-36 | Once all five entities are deleted, no `&` is left |
| VoucherText.EscapedFieldPasses | accounts/management/commands/validate_vouchers.py:31-51 | A field escaped by the fix command is never reported for HTML or loose ampersands |
| VoucherText.FixedVoucherFlags | accounts/management/commands/validate_vouchers.py:13-59 | After the fix command, validation flags a voucher exactly for missing fields, non-positive points or negative stock |

## Left out

- Email sending (OTP mail, notifications by mail), PDF rendering, OAuth/JWT
  authentication, analytics and logging are not modelled. The PDF outcome of a redemption
  is a parameter (`Some(path)` or `None` when generation failed).
- Concurrency and database races are not modelled: `transaction.atomic` and each request
  run as one uninterrupted step.
- Randomness is a parameter. Coupon candidates are given as one sequence of draws per code
  generated. Each sequence contains a code that is neither in use nor taken by an earlier
  item of the same checkout. OTP codes are a draw from [100000, 999999].
- Clocks are parameters. `now`, the day of the week and the time of day `HH:MM` are given
  separately. The browser's `toLocaleTimeString` and `getDay` (the local day, not the
  zone's) are not modelled.
- Unicode: `lower()` and `\w` are modelled on ASCII only. `strip()` and `int()` remove
  exactly the ASCII characters `str.isspace()` accepts (space, tab, line feed, vertical tab,
  form feed, carriage return and 0x1C-0x1F); non-ASCII whitespace is not modelled.
- Text.ParseInt: `int()` also accepts non-ASCII decimal digits (Arabic-Indic digits, for
  example), which the model rejects.
- Ledger.Store.RedeemVoucher: the quantity is taken as an integer. A float or a string in
  the request body (accounts/views.py:385) multiplies differently in Python
  (accounts/views.py:392) and is not modelled. The same holds for the activity points of
  `add_tier_activity`.
- Emails are compared exactly; Django's email normalisation and password hashing are not
  modelled.
- Translation: locale files are JSON values with strings, objects and other leaves; arrays
  and inherited object keys are not modelled. Parameter values are given already converted
  to strings.
- Schedule.NextPromotionSpec: `localeCompare` is taken as plain code-unit order, which
  agrees with it on `HH:MM` strings. The stability of JavaScript's and Django's sorts is not
  proved, so among promotions with equal start times the one returned is not pinned down.
- `getTimeUntilNextPromotion` (a formatted countdown) and the front end's React state
  plumbing are not modelled.
- The management commands' console messages are not modelled; only what they save and
  count is.
- Ledger.Store.Valid does not track uniqueness of cart item ids; `FindItem` returns the
  first match.
- Otp.LatestOtp: ties in `created_at` are resolved in favour of the OTP inserted last. The
  database's order among equal timestamps is unspecified.
- `get_tier_progress_info` and its rounding for display are not modelled; the progress it
  reports comes from `TierProgress`.
- Chatbot.KeywordListRoundTrip: the model proves the general round trip for any keywords
  rather than the single `'optima, rewards, loyalty'` example of the tests.
- The model keeps five as-written behaviours on purpose:
  - `TierActivity.save` creates a missing profile with 0 points, while the views use
    10000.
  - The credited tier points are saved only when an upgrade happens, because `save` is
    called inside `check_tier_upgrade` only.
  - Adding to the cart checks only the amount added, not the cart's running quantity.
  - `redeem_voucher` never checks that the quantity is positive (accounts/views.py:385). A
    negative quantity passes both checks, raises the balance and returns stock
    (`NegativeRedeemQuantity`).
  - `add_tier_activity` passes the points on unchecked (accounts/views.py:743), and
    `TierActivity.save` adds them to the profile (accounts/models.py:369-371). A negative
    activity drives a new user's balance below zero (`NegativeActivityPoints`).
