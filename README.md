# MoreSneakers storefront — a Dafny model of its page logic

MoreSneakers is a static sneaker shop whose behaviour lives in one script per
page. This project models the parts of those scripts that hold checkable
logic and proves what they promise:

- **Cart ledger** (`cart_ledger.dfy`): the functions that specify both
  pages' carts. A cart is an ordered sequence of line items keyed by product
  id. The module covers find-or-append on add, removing every line with an
  id, the unit count and the total. Prices are integer cents.
- **Home-page cart** (`home_cart.dfy`, `index.js`): every operation re-reads
  the stored cart, changes it and writes it back. A separate running
  `cartCount` badge counter is also stored under its own key. The page is a
  class whose fields are the two stored values and the counter.
- **Products-page cart** (`product_cart.dfy`, `product.js`): the cart is a
  variable of the page. The clear button needs a confirmation and a
  non-empty cart, and checkout refuses an empty cart.
- **Catalog** (`catalog.dfy`): the category filter and the two search boxes,
  one per page, with their different normalisation, and the 300 ms timers
  that hide the cards a pass drops.
- **Countdown** (`countdown.dfy`): the special-offer timer's split of the
  milliseconds left into `HH:MM:SS`, and its urgency colours.
- **Newsletter** (`newsletter.dfy`): e-mail check and de-duplicated
  subscriber list.
- **Scroll depth** (`scroll_depth.dfy`): milestones at 25/50/75/90 % that
  fire once each.
- **Event log** (`event_log.dfy`): the analytics log that keeps the most
  recent 100 events.
- **Contact form** (`contact_form.dfy`): five field rules, the submit
  aggregate and its counters, and the attributes that make each error and
  first interaction be reported once.
- **FAQ** (`faq.dfy`): the accordion with at most one open item, and the FAQ
  search with its one-second recording debounce and the exception its
  highlight throws for a term that is not a valid pattern.
- **Enquiry form** (`enquiry.dfy`): the rule switch with its ordered
  messages, the extra fields each enquiry type requires, the whole-form check
  and the confirmation text.
- **About page** (`about.dfy`): the mission/vision tabs, and the gallery
  lightbox with its cyclic image index and its Tab focus trap.

Shared text and pattern modules:

- `js_text.dfy`: JavaScript's `trim`, `toLowerCase` and `includes`, with the
  white-space set of `\s`.
- `regex.dfy`: the meaning of the anchored character-class expressions the
  validators use.
- `validators.dfy`: the e-mail, phone and name tests. Each is stated directly
  and proved equal to a match of its regular expression.

Storage is modelled by the values it holds. A missing key reads as the empty
cart, list or log, or as 0. Time, confirmation dialogs and page elements are
parameters.

## Model

| member | source | states |
|---|---|---|
| CartLedger.TotalQuantity | MoreSneakers/JAVASCRIPT/index.js:289-291 | defines the badge count: the sum of the lines' quantities |
| CartLedger.Total | MoreSneakers/JAVASCRIPT/index.js:316-318 | defines the cart total: the sum of price times quantity over the lines |
| CartLedger.Without | MoreSneakers/JAVASCRIPT/index.js:300-302 | defines removal by id: the lines whose id differs, in their order |
| CartLedger.Added | MoreSneakers/JAVASCRIPT/index.js:188-202 | defines the add: the first line with the id gains one unit, or a new line of quantity 1 is appended |
| CartLedger.WithQuantity | MoreSneakers/JAVASCRIPT/index.js:279-285 | defines setting one line's quantity, every other line kept |
| CartLedger.RemoveAt | MoreSneakers/JAVASCRIPT/index.js:282 | defines `splice(i, 1)`: the lines before and after position `i` |
| CartLedger.FindIndex | MoreSneakers/JAVASCRIPT/index.js:274-276 | the index of the first line with the id, or -1 exactly when no line has it |
| CartLedger.AddedShape | MoreSneakers/JAVASCRIPT/index.js:191-202 | adding a known id raises that line's quantity by one and changes nothing else; an unknown id appends one line of quantity 1 at the end |
| CartLedger.AddedTotalQuantity | MoreSneakers/JAVASCRIPT/index.js:191-202 | an add raises the cart's unit count by exactly one |
| CartLedger.AddedTotal | MoreSneakers/JAVASCRIPT/index.js:188-202 | an add raises the total by one unit's price: the price on the product's line when it is in the cart, the given price otherwise |
| CartLedger.AddedWellFormed | MoreSneakers/JAVASCRIPT/index.js:191-202 | an add keeps ids unique and quantities positive, and the id is then in the cart |
| CartLedger.WithoutMembers | MoreSneakers/JAVASCRIPT/index.js:300-302 | removal keeps exactly the lines with another id and never lengthens the cart |
| CartLedger.WithoutAbsent | MoreSneakers/JAVASCRIPT/index.js:300-302 | removing an id that is not in the cart leaves it unchanged |
| CartLedger.WithoutUniqueIsRemoveAt | MoreSneakers/JAVASCRIPT/index.js:300-302 | in a cart with unique ids, filtering out an id removes just its line and keeps the others in order |
| CartLedger.WithoutWellFormed | MoreSneakers/JAVASCRIPT/index.js:300-302 | removal keeps the cart well formed and leaves no line with the id |
| CartLedger.RemoveAtWellFormed | MoreSneakers/JAVASCRIPT/index.js:282-283 | splicing a line out keeps the cart well formed and drops its id |
| CartLedger.WithQuantityWellFormed | MoreSneakers/JAVASCRIPT/index.js:279-285 | setting a line's quantity to a positive number keeps the cart well formed |
| CartLedger.TotalQuantityWithQuantity | MoreSneakers/JAVASCRIPT/index.js:289-291 | changing one line's quantity changes the unit count by the difference |
| CartLedger.TotalQuantityRemoveAt | MoreSneakers/JAVASCRIPT/index.js:289-291 | removing a line lowers the unit count by its quantity |
| CartLedger.TotalWithQuantity | MoreSneakers/JAVASCRIPT/index.js:316-318 | changing one line's quantity changes the total by that line's price times the difference |
| CartLedger.TotalQuantityAtLeastLength | MoreSneakers/JAVASCRIPT/index.js:1045-1051 | with positive quantities the unit count is at least the number of lines, and zero exactly for the empty cart |
| CartLedger.TotalExample | MoreSneakers/JAVASCRIPT/index.js:316-318 | the total is the sum of price times quantity, on two lines |
| HomeCart.QuantityChanged | MoreSneakers/JAVASCRIPT/index.js:274-286 | defines the home page's quantity change: an unknown id changes nothing; the first line with the id gets the change added, is spliced out at zero or below, and is otherwise kept at least 1 |
| HomeCart.QuantityChangedFound | MoreSneakers/JAVASCRIPT/index.js:279-285 | a found line whose new quantity is not positive is spliced out; otherwise only its quantity changes, to old plus change, which is at least 1 |
| HomeCart.QuantityChangedWellFormed | MoreSneakers/JAVASCRIPT/index.js:274-298 | changing a quantity keeps the cart well formed |
| HomeCart.QuantityChangedTotalQuantity | MoreSneakers/JAVASCRIPT/index.js:279-291 | the new unit count drops the line's old quantity and adds the new one, or nothing when it is removed |
| HomeCart.ChangedAtTotalQuantity | MoreSneakers/JAVASCRIPT/index.js:279-291 | the same count, stated for a line given by index |
| HomeCart.RemovedTotalQuantity | MoreSneakers/JAVASCRIPT/index.js:282-283 | a change that removes the line lowers the count by its old quantity |
| HomeCart.KeptTotalQuantity | MoreSneakers/JAVASCRIPT/index.js:280-285 | a change that keeps the line moves the count by the change |
| HomeCart.HomeCartPage.Load | MoreSneakers/JAVASCRIPT/index.js:73-75 | on load the badge counter starts from the stored counter, not from the cart |
| HomeCart.HomeCartPage.Reload | MoreSneakers/JAVASCRIPT/index.js:73-75 | a later load keeps storage and rereads the counter, which agrees with the cart when the stored counter did |
| HomeCart.HomeCartPage.AddToCartStorage | MoreSneakers/JAVASCRIPT/index.js:188-207 | the stored cart becomes the find-or-append result, one unit more; the counter is untouched |
| HomeCart.HomeCartPage.AddToCart | MoreSneakers/JAVASCRIPT/index.js:143-177 | the add button raises counter and stored counter by one and adds one unit to the cart, so a consistent page stays consistent |
| HomeCart.HomeCartPage.UpdateCartItemQuantity | MoreSneakers/JAVASCRIPT/index.js:274-298 | an unknown id changes nothing at all; a known id changes the cart as specified and sets counter and stored counter to the cart's unit count |
| HomeCart.HomeCartPage.RemoveCartItem | MoreSneakers/JAVASCRIPT/index.js:300-314 | the cart loses every line with the id and counter and stored counter equal its unit count |
| HomeCart.HomeCartPage.ClearAsWritten | MoreSneakers/JAVASCRIPT/index.js:129-140 | the clear button as written: cart removed, counter 0, stored counter unchanged |
| HomeCart.HomeCartPage.Clear | MoreSneakers/JAVASCRIPT/index.js:129-140 | the clear button with the counter stored: cart, counter and stored counter all empty and consistent |
| HomeCart.HomeCartPage.DisplayTotal | MoreSneakers/JAVASCRIPT/index.js:218-222 | the displayed total is 0 for an empty cart |
| HomeCart.HomeCartPage.Checkout | MoreSneakers/JAVASCRIPT/index.js:106-126 | checkout is refused exactly on an empty cart, and otherwise reports the line count and the total |
| HomeCart.ClearAsWrittenThenReload | MoreSneakers/JAVASCRIPT/index.js:129-140 | after a clear as written and a reload, the badge shows the old stored count over an empty cart |
| HomeCart.StaleBadgeAfterClear | MoreSneakers/JAVASCRIPT/index.js:73-75 | add one pair, clear, reload: the badge says 1 and the cart holds 0 units |
| HomeCart.ClearThenReload | MoreSneakers/JAVASCRIPT/index.js:129-140 | with the corrected clear, a reload shows 0 over the empty cart |
| ProductCart.QuantityChanged | MoreSneakers/JAVASCRIPT/product.js:265-277 | defines the products page's quantity change: an unknown id changes nothing; the first line with the id gets the change added, and at zero or below every line with the id is filtered out |
| ProductCart.QuantityChangedAgrees | MoreSneakers/JAVASCRIPT/product.js:265-277 | on a well-formed cart the products page's quantity change equals the home page's |
| ProductCart.QuantityChangedFound | MoreSneakers/JAVASCRIPT/product.js:265-277 | a found line whose new quantity is not positive is filtered out; otherwise only its quantity changes, to old plus change |
| ProductCart.WithoutSameIdUpdate | MoreSneakers/JAVASCRIPT/product.js:268-272 | raising a quantity and then filtering the id out gives the same cart as filtering it out directly |
| ProductCart.Summary | MoreSneakers/JAVASCRIPT/product.js:322-326 | the checkout report lists one `{id, name, quantity}` entry per line, in cart order |
| ProductCart.ProductCartPage.Load | MoreSneakers/JAVASCRIPT/product.js:86 | the page's cart is the stored cart |
| ProductCart.ProductCartPage.BadgeCount | MoreSneakers/JAVASCRIPT/product.js:164-170 | the badge is at least the number of lines, and 0 exactly for the empty cart |
| ProductCart.ProductCartPage.CartTotal | MoreSneakers/JAVASCRIPT/product.js:261-263 | the total of an empty cart is 0 |
| ProductCart.ProductCartPage.AddToCart | MoreSneakers/JAVASCRIPT/product.js:143-162 | find-or-append with a time stamp on new lines, one more unit, well-formedness kept, and the cart saved |
| ProductCart.ProductCartPage.RemoveFromCart | MoreSneakers/JAVASCRIPT/product.js:279-284 | the cart keeps exactly the lines with another id, is unchanged for an absent id, and is saved |
| ProductCart.ProductCartPage.UpdateQuantity | MoreSneakers/JAVASCRIPT/product.js:265-277 | an unknown id changes neither cart nor storage; a known id changes the cart as specified and saves it |
| ProductCart.ProductCartPage.Clear | MoreSneakers/JAVASCRIPT/product.js:291-308 | the cart is emptied and saved exactly when it was non-empty and the confirmation was accepted; otherwise nothing changes |
| ProductCart.ProductCartPage.Checkout | MoreSneakers/JAVASCRIPT/product.js:311-337 | checkout is refused exactly on an empty cart, and otherwise reports line count, total and the line summary |
| Catalog.InCategory | MoreSneakers/JAVASCRIPT/product.js:372-374 | defines the category filter: the filter is `'all'` or equals the card's category |
| Catalog.SearchMatches | MoreSneakers/JAVASCRIPT/product.js:455-459 | defines the search rule: the lower-cased name or description, or the category as written, includes the query |
| Catalog.CountInCategory | MoreSneakers/JAVASCRIPT/index.js:399-413 | the visible count never exceeds the number of cards and is all of them for `'all'` |
| Catalog.FilterProducts | MoreSneakers/JAVASCRIPT/product.js:369-385 | each card is shown iff the filter is `'all'` or its category, and the count is the number shown |
| Catalog.CountMatches | MoreSneakers/JAVASCRIPT/product.js:453-472 | the search count never exceeds the number of cards |
| Catalog.EmptyQueryMatchesAll | MoreSneakers/JAVASCRIPT/product.js:441-450 | an empty query would match every card |
| Catalog.ShowMatches | MoreSneakers/JAVASCRIPT/product.js:453-472 | each card is shown iff its lower-cased name or description, or its category, contains the query, and the count is the number shown |
| Catalog.SearchOnHome | MoreSneakers/JAVASCRIPT/index.js:760-791 | the home search trims then lower-cases; an empty query is refused and changes no card; otherwise the cards are shown by the search rule |
| Catalog.SearchOnProducts | MoreSneakers/JAVASCRIPT/product.js:430-470 | the products search lower-cases then trims; an empty query shows every card; otherwise the cards are shown by the search rule |
| Catalog.PassAsWritten | MoreSneakers/JAVASCRIPT/index.js:402-420 | defines one filter or search pass as written: a kept card is shown at once with any pending hide left pending, and every other card gets a 300 ms hide timer |
| Catalog.PassCancelling | MoreSneakers/JAVASCRIPT/index.js:402-420 | defines the pass as intended: showing a card also cancels its pending hide |
| Catalog.FireTimers | MoreSneakers/JAVASCRIPT/index.js:417-419 | the pending hide timers fire: every card with one is hidden and none is left pending |
| Catalog.CategoryVerdicts | MoreSneakers/JAVASCRIPT/index.js:405 | the filter rule's verdict on each card |
| Catalog.AsWrittenKeepsOnlyBoth | MoreSneakers/JAVASCRIPT/index.js:402-420 | as written, two passes less than 300 ms apart from a settled grid leave shown exactly the cards both passes keep |
| Catalog.RunningThenAllHidesCasual | MoreSneakers/JAVASCRIPT/index.js:417-419 | as written, Running then All within 300 ms hides the casual card although All keeps it |
| Catalog.CancellingSettlesToLast | MoreSneakers/JAVASCRIPT/index.js:402-420 | with the cancelling show, whatever timers are pending, the grid settles to exactly the last pass's verdicts |
| Countdown.ClockText | MoreSneakers/JAVASCRIPT/index.js:350-351 | defines the display: the three fields, each padded to two digits, joined by colons |
| Countdown.UrgencyOf | MoreSneakers/JAVASCRIPT/index.js:353-359 | defines the colour: red below one hour, orange below six, otherwise unchanged |
| Countdown.DecimalString | MoreSneakers/JAVASCRIPT/index.js:350-351 | a number's decimal text has a digit, and two or more from 10 up |
| Countdown.PadStartShape | MoreSneakers/JAVASCRIPT/index.js:350-351 | `padStart` keeps the text at its end and fills the front up to the width |
| Countdown.TwoDigitsOf | MoreSneakers/JAVASCRIPT/index.js:350-351 | a number below 100 pads to two digits that read back as the number |
| Countdown.ClockTextReadsBack | MoreSneakers/JAVASCRIPT/index.js:350-351 | the display is eight characters `HH:MM:SS` whose digit pairs read back as hours, minutes and seconds |
| Countdown.UpdateCountdown | MoreSneakers/JAVASCRIPT/index.js:331-364 | expired exactly when no time is left; otherwise hours below 24, minutes and seconds below 60, and an eight-character display |
| Countdown.UpdateCountdownDecomposes | MoreSneakers/JAVASCRIPT/index.js:345-347 | the three fields account for the time left within the day, down to the millisecond remainder |
| Countdown.FullDayShowsMidnight | MoreSneakers/JAVASCRIPT/index.js:327-356 | with a whole day left the display reads 00:00:00 in the last-hour red |
| Countdown.OfferCountdown | MoreSneakers/JAVASCRIPT/index.js:331-342 | the corrected countdown is expired exactly when no time is left |
| Countdown.OfferCountdownExact | MoreSneakers/JAVASCRIPT/index.js:345-359 | within the offer's day the fields account for all the time left, hours are at most 24, and red shows exactly in the last hour |
| Countdown.OfferCountdownAgrees | MoreSneakers/JAVASCRIPT/index.js:345-347 | below a whole day the corrected countdown equals the written one |
| Newsletter.WithSubscriber | MoreSneakers/JAVASCRIPT/index.js:503-512 | defines `saveSubscriber`: the address is appended unless the list already includes it |
| Newsletter.WithSubscriberMembers | MoreSneakers/JAVASCRIPT/index.js:503-512 | after saving, the subscribers are the old ones plus the address |
| Newsletter.WithSubscriberNoDuplicates | MoreSneakers/JAVASCRIPT/index.js:503-512 | saving keeps the list free of duplicates |
| Newsletter.WithSubscriberIdempotent | MoreSneakers/JAVASCRIPT/index.js:505-506 | saving the same address twice is the same as once |
| Newsletter.SubscriberList.Load | MoreSneakers/JAVASCRIPT/index.js:504 | the list starts as stored |
| Newsletter.SubscriberList.SaveSubscriber | MoreSneakers/JAVASCRIPT/index.js:503-512 | the list becomes the de-duplicated extension and stays duplicate-free |
| Newsletter.SubscriberList.Submit | MoreSneakers/JAVASCRIPT/index.js:443-484 | the trimmed address is accepted iff it passes the e-mail test; only an accepted one is saved |
| ScrollDepth.Due | MoreSneakers/JAVASCRIPT/index.js:552-557 | defines the milestones a scroll reports: in key order, those reached and not yet tracked |
| ScrollDepth.DueMembers | MoreSneakers/JAVASCRIPT/index.js:552-557 | the milestones due are exactly those reached and not yet tracked |
| ScrollDepth.Marked | MoreSneakers/JAVASCRIPT/index.js:552-557 | marking keeps the set of milestones |
| ScrollDepth.MarkedOutside | MoreSneakers/JAVASCRIPT/index.js:552-557 | a milestone not visited keeps its flag |
| ScrollDepth.MarkedInside | MoreSneakers/JAVASCRIPT/index.js:552-557 | a visited milestone is flagged iff it was or is now reached |
| ScrollDepth.VisitStep | MoreSneakers/JAVASCRIPT/index.js:552-557 | one more milestone visited flags it and reports it exactly when it is reached and was not flagged |
| ScrollDepth.ScrollTracker.constructor | MoreSneakers/JAVASCRIPT/index.js:541-547 | every milestone starts unflagged and nothing has fired |
| ScrollDepth.ScrollTracker.OnScroll | MoreSneakers/JAVASCRIPT/index.js:549-559 | a scroll fires exactly the due milestones, flags every reached one, and keeps the fired list duplicate-free |
| ScrollDepth.FiredStaysValid | MoreSneakers/JAVASCRIPT/index.js:552-557 | after a scroll the flags are exactly the fired milestones, each fired once |
| ScrollDepth.DueNoDuplicates | MoreSneakers/JAVASCRIPT/index.js:552-557 | one scroll reports each milestone at most once |
| EventLog.Recent | MoreSneakers/JAVASCRIPT/index.js:1039-1041 | the kept log is the last 100 events, or all when there are fewer |
| EventLog.RecentKeepsNewest | MoreSneakers/JAVASCRIPT/index.js:1039-1041 | the event just tracked is the last entry kept |
| EventLog.RecentOfRecent | MoreSneakers/JAVASCRIPT/index.js:1039-1041 | trimming before appending gives the same log as trimming after |
| EventLog.RecentOfSuffix | MoreSneakers/JAVASCRIPT/index.js:1039-1041 | trimming in between never changes the kept log |
| EventLog.TrackAll | MoreSneakers/JAVASCRIPT/product.js:665-668 | defines tracking a run of events one by one, each push followed by `slice(-100)` |
| EventLog.TrackAllIsRecent | MoreSneakers/JAVASCRIPT/product.js:665-668 | tracking events one by one keeps the last 100 of all of them |
| EventLog.EventStore.Load | MoreSneakers/JAVASCRIPT/contact.js:635 | the log starts as stored under its key |
| EventLog.EventStore.TrackUserAction | MoreSneakers/JAVASCRIPT/contact.js:622-637 | the log becomes the last 100 of the old log plus the new event, which is its last entry |
| JsText.TrimStart | MoreSneakers/JAVASCRIPT/contact.js:151 | trimming the front drops exactly the leading white space |
| JsText.TrimEnd | MoreSneakers/JAVASCRIPT/contact.js:151 | trimming the end drops exactly the trailing white space |
| JsText.Trim | MoreSneakers/JAVASCRIPT/contact.js:151 | a trimmed string is empty or starts and ends with non-space |
| JsText.TrimEmptyIff | MoreSneakers/JAVASCRIPT/enquiry.js:79 | trimming gives the empty string exactly for all-space text |
| JsText.TrimIdempotent | MoreSneakers/JAVASCRIPT/enquiry.js:79 | trimming twice is trimming once |
| JsText.ToLower | MoreSneakers/JAVASCRIPT/product.js:431 | lower-casing keeps the length |
| JsText.ToLowerAt | MoreSneakers/JAVASCRIPT/product.js:431 | each character is lower-cased in place and no capital remains |
| JsText.ToLowerIdempotent | MoreSneakers/JAVASCRIPT/contact.js:482 | lower-casing twice is lower-casing once |
| JsText.TrimLowerCommute | MoreSneakers/JAVASCRIPT/index.js:761 | trimming then lower-casing equals lower-casing then trimming |
| JsText.IncludesIffOccurs | MoreSneakers/JAVASCRIPT/contact.js:505 | `includes` holds iff the needle occurs at some position |
| JsText.IncludesEmpty | MoreSneakers/JAVASCRIPT/contact.js:505 | every text includes the empty string |
| Validators.IsValidEmail | MoreSneakers/JAVASCRIPT/index.js:486-489 | defines the e-mail test directly: local part, `@`, domain, `.`, ending, with no white space or second `@` |
| Validators.IsContactPhone | MoreSneakers/JAVASCRIPT/contact.js:187-191 | defines the contact phone test directly: an optional `+`, then ten or more digits, spaces, hyphens or parentheses |
| Validators.IsValidPhone | MoreSneakers/JAVASCRIPT/enquiry.js:638-642 | defines the enquiry phone test directly on the text stripped of spaces, hyphens and parentheses |
| Regex.Matches | MoreSneakers/JAVASCRIPT/index.js:487 | defines what it means for an anchored sequence of character classes with repetition counts to match a whole string |
| Validators.EmailCutIff | MoreSneakers/JAVASCRIPT/index.js:486-489 | an address is valid iff it splits as local part, `@`, domain, `.`, ending, none empty and none holding space or `@` |
| Validators.EmailMatchesRegex | MoreSneakers/JAVASCRIPT/index.js:486-489 | the direct e-mail test equals a match of the e-mail expression |
| Validators.ContactPhoneMatchesRegex | MoreSneakers/JAVASCRIPT/contact.js:187-191 | the direct phone test (optional `+`, then ten or more digits, spaces, hyphens or parentheses) equals a match of the phone expression |
| Validators.StripSeparators | MoreSneakers/JAVASCRIPT/enquiry.js:641 | stripping removes exactly the spaces, hyphens and parentheses and keeps every other character |
| Validators.ShortPhoneMatches | MoreSneakers/JAVASCRIPT/enquiry.js:640 | the first phone alternative matches iff an optional `+` is followed by a non-zero digit and at most 15 more digits |
| Validators.LongPhoneMatches | MoreSneakers/JAVASCRIPT/enquiry.js:640 | the second phone alternative matches a stripped number iff after an optional `+` come ten or more digits |
| Validators.EnquiryPhoneMatchesRegex | MoreSneakers/JAVASCRIPT/enquiry.js:638-642 | the direct enquiry phone test equals a match of either alternative on the stripped text |
| Validators.NameMatchesRegex | MoreSneakers/JAVASCRIPT/enquiry.js:99 | the direct name-character test equals a match of the name expression |
| ContactForm.ValidateName | MoreSneakers/JAVASCRIPT/contact.js:178-180 | defines the name rule: two or more characters |
| ContactForm.ValidateEmail | MoreSneakers/JAVASCRIPT/contact.js:182-185 | defines the e-mail rule: the e-mail test |
| ContactForm.ValidatePhone | MoreSneakers/JAVASCRIPT/contact.js:187-191 | defines the phone rule: empty, or the contact phone test |
| ContactForm.ValidateMessage | MoreSneakers/JAVASCRIPT/contact.js:193-195 | defines the message rule: ten or more characters |
| ContactForm.ValidateSubject | MoreSneakers/JAVASCRIPT/contact.js:197-199 | defines the subject rule: not empty |
| ContactForm.PhoneRuleIsRegex | MoreSneakers/JAVASCRIPT/contact.js:187-191 | the phone rule holds iff the value is empty or matches the phone expression |
| ContactForm.EmailRuleIsRegex | MoreSneakers/JAVASCRIPT/contact.js:182-185 | the e-mail rule holds iff the value matches the e-mail expression |
| ContactForm.Verdicts | MoreSneakers/JAVASCRIPT/contact.js:236-241 | one verdict per field, a missing field failing |
| ContactForm.Checked | MoreSneakers/JAVASCRIPT/contact.js:154-167 | a check sets the error attribute iff it was set or the field fails unreported, and keeps value and interaction attribute |
| ContactForm.NewErrorsMembers | MoreSneakers/JAVASCRIPT/contact.js:236-241 | a submit reports exactly the failing fields not yet reported, in field order |
| ContactForm.BlurKeepsBookkept | MoreSneakers/JAVASCRIPT/contact.js:160-167 | after a blur, error attributes are set exactly for the fields reported, each reported once |
| ContactForm.ValidateField | MoreSneakers/JAVASCRIPT/contact.js:150-176 | `validateField` returns the rule's verdict on the trimmed value and reports a failure only the first time |
| ContactForm.CheckFields | MoreSneakers/JAVASCRIPT/contact.js:236-243 | submit checks all five fields without short-circuit; the form is valid iff every verdict is true; the error bookkeeping is kept |
| ContactForm.SubmitKeepsValid | MoreSneakers/JAVASCRIPT/contact.js:236-241 | the error attributes after a submit match the errors reported since the last reset |
| ContactForm.ContactFormPage.Load | MoreSneakers/JAVASCRIPT/contact.js:146-147 | a loaded form has no attributes set and both counters at 0 |
| ContactForm.ContactFormPage.Blur | MoreSneakers/JAVASCRIPT/contact.js:215-217 | a blur checks one field, updates its error attribute and reports a new error at most once; counters unchanged |
| ContactForm.ContactFormPage.Input | MoreSneakers/JAVASCRIPT/contact.js:220-228 | the first non-empty input of a field is reported once and sets its interaction attribute |
| ContactForm.ContactFormPage.Submit | MoreSneakers/JAVASCRIPT/contact.js:233-320 | every submit adds one attempt; a failed one adds one validation error; valid iff all five fields pass |
| ContactForm.ContactFormPage.FinishSubmission | MoreSneakers/JAVASCRIPT/contact.js:268-307 | after a successful submission the form is reset and every tracking attribute cleared |
| Faq.CloseAll | MoreSneakers/JAVASCRIPT/contact.js:433-435 | every accordion item is closed |
| Faq.Accordion.constructor | MoreSneakers/JAVASCRIPT/contact.js:412-414 | each item starts open or closed as the page has it, no clicks are counted yet, and at most one item is open exactly when the page opens at most one |
| Faq.Accordion.Click | MoreSneakers/JAVASCRIPT/contact.js:417-448 | the clicked item is open iff it was closed, every other item is closed, at most one is open, and the interaction count rises by one |
| Faq.EntryMatches | MoreSneakers/JAVASCRIPT/contact.js:501-505 | defines the search rule: the lower-cased question or answer includes the term |
| Faq.CountEntryMatches | MoreSneakers/JAVASCRIPT/contact.js:500-509 | the result count never exceeds the number of entries |
| Faq.NoResultsIffNoMatch | MoreSneakers/JAVASCRIPT/contact.js:543-545 | the count is zero exactly when no entry matches |
| Faq.EmptyTermShowsAll | MoreSneakers/JAVASCRIPT/contact.js:500-509 | an empty term shows every entry |
| Faq.FirstMatch | MoreSneakers/JAVASCRIPT/contact.js:500-505 | the index of the first entry the term matches, no entry before it matching, or the number of entries when none does |
| Faq.Displayed | MoreSneakers/JAVASCRIPT/contact.js:500-530 | defines each entry's display after the pass: whether it matches, except that after a throw the entries past the first match keep their old display |
| Faq.ShowEntries | MoreSneakers/JAVASCRIPT/contact.js:500-530 | the pass throws exactly when the term is non-empty, the pattern does not compile and some entry matches; the displays become `Displayed`, so every entry up to the first match is shown iff it matches and, without a throw, every entry is; without a throw the shown ones are counted |
| Faq.QuestionMarkLeavesStaleEntry | MoreSneakers/JAVASCRIPT/contact.js:565 | as written, the term `?` over the entries "why?" and "how" throws at the first, and "how" stays shown although it does not match |
| Faq.CompilingShowsExactlyMatches | MoreSneakers/JAVASCRIPT/contact.js:500-530 | when the pattern compiles, every entry's display is whether it matches |
| Faq.NormaliseIsStable | MoreSneakers/JAVASCRIPT/contact.js:482 | the recorded term is already trimmed and lower-case |
| Faq.RecordKeepsNormalised | MoreSneakers/JAVASCRIPT/contact.js:488-490 | recording a normalised term keeps every recorded term normalised |
| Faq.FaqSearch.constructor | MoreSneakers/JAVASCRIPT/contact.js:478-479 | no terms recorded, last time 0 |
| Faq.FaqSearch.OnInput | MoreSneakers/JAVASCRIPT/contact.js:481-544 | a non-empty term more than a second after the last is recorded, whatever follows; the entries are displayed as `Displayed` says; the handler throws exactly when the pass does, and otherwise reports the count and shows the no-results message iff it is 0 |
| Faq.FaqSearch.OnInputEscaped | MoreSneakers/JAVASCRIPT/contact.js:481-544 | with the term escaped in the pattern, the same recording, every entry shown iff it matches, the shown ones counted, and the no-results message shown iff none is |
| Enquiry.RuleFor | MoreSneakers/JAVASCRIPT/enquiry.js:90-145 | defines the rule switch: each listed field name's checks and problems in source order; unlisted names pass |
| Enquiry.CheckField | MoreSneakers/JAVASCRIPT/enquiry.js:77-145 | defines `validateField`: a field without `required` whose trimmed value is empty passes, otherwise the rule for its name on the trimmed value |
| Enquiry.NumberOf | MoreSneakers/JAVASCRIPT/enquiry.js:394 | defines the number a quantity's text is compared as: blank is 0, signed decimal digits their value, anything else no number |
| Enquiry.NameRuleIsRegex | MoreSneakers/JAVASCRIPT/enquiry.js:91-103 | a name passes iff it has two or more characters the name expression accepts |
| Enquiry.EmailRuleIsRegex | MoreSneakers/JAVASCRIPT/enquiry.js:106-113 | an e-mail passes iff it matches the e-mail expression |
| Enquiry.PhoneRuleIsRegex | MoreSneakers/JAVASCRIPT/enquiry.js:115-120 | a phone passes iff it is blank or, stripped of separators, matches one of the phone alternatives |
| Enquiry.MessageRuleLength | MoreSneakers/JAVASCRIPT/enquiry.js:129-137 | a message passes iff it has ten or more characters |
| Enquiry.OptionalBlankPasses | MoreSneakers/JAVASCRIPT/enquiry.js:85-88 | a field without `required` holding only white space passes whatever its name |
| Enquiry.UnlistedNamePasses | MoreSneakers/JAVASCRIPT/enquiry.js:90-145 | a field name the switch does not list passes, whatever its value |
| Enquiry.KindOf | MoreSneakers/JAVASCRIPT/enquiry.js:604-614 | a value that is not one of the six types is kept as its own text |
| Enquiry.DynamicValidation | MoreSneakers/JAVASCRIPT/enquiry.js:367-416 | `pricing` fails iff a required budget is empty, `partnership` iff a required type is empty, `wholesale` iff a required quantity is empty or below 1; other types are valid with no errors; at most one error, and valid iff none |
| Enquiry.ShownErrorsEmptyIff | MoreSneakers/JAVASCRIPT/enquiry.js:56-60 | no field error is shown iff every required field passes |
| Enquiry.ShownErrorsListEveryFailure | MoreSneakers/JAVASCRIPT/enquiry.js:56-60 | every failing required field shows its error, whatever failed before it |
| Enquiry.ValidateForm | MoreSneakers/JAVASCRIPT/enquiry.js:47-75 | every required field is checked without short-circuit; the form is valid iff all of them pass and the chosen type's extra fields pass, which is exactly when no error is shown |
| Enquiry.Label | MoreSneakers/JAVASCRIPT/enquiry.js:604-614 | defines the label of each of the six listed types |
| Enquiry.GenerateResponse | MoreSneakers/JAVASCRIPT/enquiry.js:573-601 | defines the confirmation: the fixed title, the greeting with name and label, the type's sentence and the newsletter sentence when subscribed |
| Enquiry.LabelIsOwnTextIffUnlisted | MoreSneakers/JAVASCRIPT/enquiry.js:604-614 | the label is the type's own text iff the type is not one of the six listed |
| Enquiry.TypeSentenceEnding | MoreSneakers/JAVASCRIPT/enquiry.js:577-594 | no type sentence ends like the newsletter sentence |
| Enquiry.ResponseOpensWithGreeting | MoreSneakers/JAVASCRIPT/enquiry.js:573-575 | the title is fixed and the message opens with the thank-you greeting naming the customer and the label |
| Enquiry.ResponseNoteIffNewsletter | MoreSneakers/JAVASCRIPT/enquiry.js:597-599 | the message ends with the newsletter sentence iff the customer subscribed |
| About.DeselectAll | MoreSneakers/JAVASCRIPT/about.js:46-49 | every toggle button loses `active` and gets `aria-selected` false |
| About.Toggle.constructor | MoreSneakers/JAVASCRIPT/about.js:32-86 | each button's `aria-selected` copies its `active` class; with at least one button the mission pane is announced visible and the vision pane hidden, and with none the script returns at about.js:32-35 and the panes keep the page's flags |
| About.Toggle.Click | MoreSneakers/JAVASCRIPT/about.js:42-66 | exactly the clicked button is active and selected; `mission` and `vision` show their pane and hide the other; any other target leaves the panes alone |
| About.Toggle.KeyDown | MoreSneakers/JAVASCRIPT/about.js:72-77 | Enter or Space acts as a click: exactly that button is active and selected, and the panes change as a click on it changes them; any other key changes nothing |
| About.NextIndex | MoreSneakers/JAVASCRIPT/about.js:287 | defines the next image index: one on, the first after the last |
| About.PrevIndex | MoreSneakers/JAVASCRIPT/about.js:276 | defines the previous image index: one back, the last before the first |
| About.StepsAreInverse | MoreSneakers/JAVASCRIPT/about.js:275-287 | next and previous stay in range and undo each other |
| About.TabAsWritten | MoreSneakers/JAVASCRIPT/about.js:326-337 | defines the Tab handler as written: Shift+Tab on the first element goes to the last, Tab on the last to the first, and otherwise focus does not move |
| About.TabAsWrittenSkipsMiddle | MoreSneakers/JAVASCRIPT/about.js:323-337 | with the handler as written and three or more elements, focus starting at either end stays at the ends |
| About.TabAsWrittenStuckOnFirst | MoreSneakers/JAVASCRIPT/about.js:323-337 | three elements, focus on the first, Tab leaves focus on the first |
| About.TabTrapped | MoreSneakers/JAVASCRIPT/about.js:323-337 | defines the trap as intended: Tab and Shift+Tab move to the neighbouring element and wrap at both ends |
| About.TabTrappedCycles | MoreSneakers/JAVASCRIPT/about.js:323-337 | the intended trap moves to the neighbour, wraps at both ends, and Shift+Tab undoes Tab |
| About.TabTrappedReachesAll | MoreSneakers/JAVASCRIPT/about.js:323-337 | with the intended trap, `j` Tab presses from the first element reach element `j` |
| About.Lightbox.constructor | MoreSneakers/JAVASCRIPT/about.js:206 | the lightbox starts closed at image 0 |
| About.Lightbox.Open | MoreSneakers/JAVASCRIPT/about.js:226-256 | opening item `k` makes it the current and shown image, locks scrolling and focuses the close button |
| About.Lightbox.Close | MoreSneakers/JAVASCRIPT/about.js:260-272 | closing hides the lightbox, unlocks scrolling, keeps the index and returns focus to the current gallery item |
| About.Lightbox.Prev | MoreSneakers/JAVASCRIPT/about.js:275-283 | the index becomes the previous one, the last before the first, and is shown |
| About.Lightbox.Next | MoreSneakers/JAVASCRIPT/about.js:286-294 | the index becomes the next one, the first after the last, and is shown |
| About.Lightbox.KeyDown | MoreSneakers/JAVASCRIPT/about.js:313-338 | nothing while closed; Escape closes, unlocks scrolling and returns focus to the current gallery item; the arrows step the index, keeping focus and scroll lock; Tab moves focus by the handler as written, `TabAsWritten`; other keys change nothing |
| About.Lightbox.KeyDownTrapped | MoreSneakers/JAVASCRIPT/about.js:323-337 | the handler with the intended trap: Tab moves focus by `TabTrapped`, and every other key acts as in `KeyDown` |

## Left out

- Storage I/O: `localStorage`, `JSON.parse`/`stringify`. Each key is a field holding its value. Malformed stored JSON throws in the source and is not modelled.
- DOM rendering, CSS classes used only for animation, notifications and `innerHTML` templates: presentation only.
- Timers: the 1.5 s newsletter delay, the 2 s contact-form delay and the search debounce timer on the products page. The FAQ debounce compares times passed in as parameters.
- Floating point: `toFixed(2)`, `parseFloat` prices, the scroll percentage division and the stats counter's easing. Prices are integer cents and the scroll percent is an integer input.
- Unicode: `toLowerCase` is modelled for ASCII letters. Lengths count Dafny characters, not UTF-16 code units.
- `highlightText` and `removeHighlights` in the FAQ search rewrite page nodes; that rewriting is left out. The exception `new RegExp` throws there is modelled.
- Faq.FaqSearch.OnInput: whether `new RegExp('(' + term + ')', 'gi')` accepts a term is the parameter `compiles`. JavaScript's pattern syntax is not modelled, so which terms throw is given rather than derived.
- `gtag`, `console`, `sendToAnalytics`, `window.location`, `navigator.sendBeacon` and `confirm()`. The confirmation is a boolean parameter. Analytics events are kept only where the source makes them fire once: contact errors and interactions, scroll milestones.
- The export stubs and about.js's fallback initialisation (about.js:499-513), the stats counter, team cards, lazy loading and performance monitoring: outside the modelled page logic.
- `initializeCartFromStorage` (index.js:1045-1057) runs at script load. It sets the badge from the cart, but `initCart` runs later and overwrites the badge with the stored counter. The model keeps only the later value.
- The label lookup `types[type] || type` also answers inherited object keys such as `constructor`. The model treats every unlisted text as itself.
- Catalog.SearchOnProducts: the category is compared as written, not lower-cased, as the source does.
- Catalog.FilterProducts: a hidden card is hidden at once, where the source hides it 300 ms later (index.js:417-419, product.js:386-388). Its contract is the settled state when no earlier hide timer is pending. A show less than 300 ms after an earlier pass can be overridden by that pass's timer; that race is modelled by `PassAsWritten` and `FireTimers`.
- Catalog.ShowMatches: the same immediate hide for the search (index.js:789-791, product.js:469-471).
- Catalog.SearchOnHome: the same immediate hide, through `ShowMatches`.
- Catalog.SearchOnProducts: the same immediate hide, through `ShowMatches`. Its empty query shows every card at once, while earlier hide timers still fire.
- ContactForm.Verdicts: a field whose error element is missing counts as a missing, failing field, as the submit handler does. Its blur and input handlers are then never attached.
- Enquiry.DynamicValidation: the order-quantity comparison reads the value as integer decimal text with an optional sign. Fractions, exponents and hexadecimal text, which JavaScript's number conversion also accepts, are not modelled.
- Enquiry.ValidateForm: error display and `clearAllErrors` are modelled as the returned list of shown errors. Dynamic fields are found on the page, given as `DynamicInputs`.
- About.Lightbox.Prev: requires at least one image. On an empty gallery the source's `% 0` gives `NaN` and the next line throws.
- About.Lightbox.Next: requires at least one image, for the same reason.
- About.Toggle.Click: assumes both panes exist. The source throws when one is missing.
- About.Lightbox.Close: the backdrop click and the close button share this method. Focus moves to the gallery item only when it exists.
- Lightbox focus is a position among the lightbox's focusable elements, the gallery items, or elsewhere. The page's element order is a parameter.

## Findings

| source | as written | input that shows it | evidently intended | confidence | as-written member | corrected member |
|---|---|---|---|---|---|---|
| MoreSneakers/JAVASCRIPT/index.js:129-140 | the clear button removes the stored cart and sets the counter to 0, but never stores `cartCount`; the next load reads the old count (index.js:73-75) | add one pair, clear, load the page again: the badge shows 1 over an empty cart, and the next add shows 2 | store the reset counter, as every other cart handler does | high, not executed | HomeCart.StaleBadgeAfterClear | HomeCart.ClearThenReload |
| MoreSneakers/JAVASCRIPT/index.js:345 | hours are taken from the time left modulo a day, while the offer ends 24 hours after load (index.js:327-329) | the immediate first tick with no millisecond elapsed (timeLeft = 86400000) shows 00:00:00 in the last-hour red; on a day when clocks go back, `setHours(+24)` (index.js:328) sets the end 25 hours ahead, and the whole first hour reads 00:MM:SS in red | the whole hours left, so a full day shows 24:00:00 | medium, not executed | Countdown.FullDayShowsMidnight | Countdown.OfferCountdownExact |
| MoreSneakers/JAVASCRIPT/about.js:323-337 | Tab's default move is always prevented, and focus moves only from the first element (Shift+Tab) or the last (Tab) | lightbox with three focusable elements, focus on the first: Tab leaves focus on the first, and the middle element is never reached | prevent the default only at the two ends, so Tab moves to the next element and wraps | high, not executed | About.TabAsWrittenSkipsMiddle | About.Lightbox.KeyDownTrapped |
| MoreSneakers/JAVASCRIPT/contact.js:565 | the FAQ highlight builds `new RegExp('(' + term + ')', 'gi')` from the raw term; a term that is not a valid pattern throws at the first matching entry and ends the `forEach` (contact.js:500) | type `?` while some question contains a question mark: the first entry that contains it is shown, the pass stops there, later entries keep their old display, and the no-results message (contact.js:542-543) is not updated | escape the term before building the pattern, so every entry is shown iff it matches | high, not executed | Faq.QuestionMarkLeavesStaleEntry | Faq.FaqSearch.OnInputEscaped |
| MoreSneakers/JAVASCRIPT/index.js:417-419 | every filter or search pass hides a dropped card with `setTimeout(() => card.style.display = 'none', 300)` and never cancels it, while a kept card is shown at once (also index.js:789-791, product.js:386-388, product.js:469-471) | click Running, then All within 300 ms: the non-running cards are shown by All and then hidden by Running's timers, so All shows only running cards | a show cancels the card's pending hide, so the grid settles to the last pass | high, not executed | Catalog.RunningThenAllHidesCasual | Catalog.CancellingSettlesToLast |
