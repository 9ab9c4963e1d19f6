# Urugano Realty page script, modelled in Dafny

The site's one script, `assets/js/main.js`, wires a static real-estate site. It
highlights the navigation link of the current page. It sends a search to the
listings page with the search values in the query string. It runs three
submit handlers (login, signup, roommate application) that check every field
is filled in. It also provides an email validator and a client-side filter
that shows or hides listing cards.

This model pulls the decision logic out of those event handlers. Each handler
becomes a function or method over plain values. The page effects are
returned as an `Outcome`: the `console.log` record, the `alert` message, and
the URL assigned to `window.location.href`. The two handlers that change the
page in place (the navigation highlight and the listing filter) become
methods that update an array of records.

Modules, one file each:

- `Wrappers`: `Option`.
- `JsText`: the ECMAScript built-ins the script calls on strings. These are
  the white-space class shared by `\s` and `trim`, `trim`, `toLowerCase` and
  `includes`.
- `UriComponent`: `encodeURIComponent` and a matching `decodeURIComponent`
  (ECMAScript 2023, sections 19.2.6.2 and 19.2.6.4). Characters outside the
  unreserved set become the `%XX` triples of their UTF-8 octets (section 2.1
  of RFC 3986, section 3 of RFC 3629).
- `Feedback`: `LogRecord` and `Outcome`, what a handler leaves behind.
- `Email`: `validateEmail` and the pattern `^[^\s@]+@[^\s@]+\.[^\s@]+$`.
- `Navigation`: the current-page rule and the link loop of `initializeNavigation`.
- `Search`: `handleSearch` and the listings URL it builds.
- `Forms`: `handleLogin`, `handleSignup` and `handleRoommateApplication`, as one function.
- `Listings`: `filterListings`.

Two consequences of the code are worth stating:

- The last class of the email pattern is `[^\s@]`, so the part after the dot
  excludes `@` as well as white space (`assets/js/main.js:155`).
- The home page is used whenever the last `/`-separated segment of the path
  is empty. That includes every path ending in `/` (`assets/js/main.js:15`).

## Model

| member | source | states |
|---|---|---|
| `JsText.Trim` | assets/js/main.js:44 | `location.trim()` is a slice of the input. Only white space lies outside it. A non-empty result starts and ends with a non-white-space character. |
| `JsText.TrimEmptyIff` | assets/js/main.js:44 | `trim()` gives the empty (falsy) string exactly when the input is all ECMAScript white space. |
| `JsText.Includes` | assets/js/main.js:168 | `includes` is true exactly when the needle occurs at some position of the haystack. So the empty needle is always included. |
| `UriComponent.DecodeEncode` | assets/js/main.js:49 | Decoding `encodeURIComponent(s)` gives `s` back for every string. This includes non-ASCII characters, which go through UTF-8. |
| `UriComponent.Utf8DecodeUtf8` | assets/js/main.js:49 | The UTF-8 octets the encoder writes for a character decode to that character. |
| `UriComponent.Utf8DecodeOnlyUtf8` | assets/js/main.js:49 | Octets the decoder accepts as one character are exactly that character's UTF-8 encoding. Overlong forms and surrogates are refused. |
| `UriComponent.EncodeIsPercentEncoded` | assets/js/main.js:49 | The encoder writes only unreserved characters and `%` followed by two upper-case hexadecimal digits. |
| `UriComponent.PercentEncodedAlphabet` | assets/js/main.js:49 | Such a string holds no character except `A–Z a–z 0–9 - _ . ! ~ * ' ( )` and `%`. |
| `UriComponent.EncodeAppend` | assets/js/main.js:49 | The encoder works character by character: encoding a concatenation gives the concatenation of the encodings. |
| `UriComponent.EncodeUnreservedUnchanged` | assets/js/main.js:49 | A string of unreserved characters is its own encoding. |
| `Email.ValidateEmailMatchesPattern` | assets/js/main.js:154-157 | `validateEmail(s)` holds exactly when `s` matches the pattern: three non-empty runs of `[^\s@]` separated by `@` and `.`. |
| `Email.ValidateEmailSound` | assets/js/main.js:154-157 | Every accepted address has the form local `@` domain `.` suffix, each part a non-empty run of `[^\s@]`. |
| `Email.ValidateEmailComplete` | assets/js/main.js:154-157 | Every string of that form is accepted. |
| `Email.ValidateEmailCharacterisation` | assets/js/main.js:154-157 | Equivalently: no white space, exactly one `@` (not first), and after it a `.` that is neither the first nor the last character of the domain. |
| `Email.ValidateEmailAccepts` | assets/js/main.js:154-157 | `"a@b.co"` is accepted. |
| `Email.ValidateEmailRejects` | assets/js/main.js:154-157 | `"a@b"`, `"a b@c.co"` and `"@b.co"` are rejected. |
| `Navigation.LastSegment` | assets/js/main.js:15 | `split('/').pop()` is the longest `/`-free suffix of the path. Either it is the whole path or a `/` precedes it. |
| `Navigation.CurrentPage` | assets/js/main.js:15 | The current page is never empty and has no `/`. It is `index.html` when the path is empty or ends in `/`. Otherwise it is the suffix after the last `/`. |
| `Navigation.LastSegmentAfterSlash` | assets/js/main.js:15 | Whatever precedes the last `/`, `split('/').pop()` gives the `/`-free segment after it. |
| `Navigation.CurrentPageIsLastSegment` | assets/js/main.js:15 | On `dir/segment`, with a non-empty segment free of `/`, the current page is `segment`. |
| `Navigation.HomePageExamples` | assets/js/main.js:15 | On `""`, `/` and `/site/` the current page is `index.html`. |
| `Navigation.ExactMatch` | assets/js/main.js:15-18 | On a path ending in `/page`, a link whose `href` is `page` is active. A link to `page/` is not, since the comparison is exact, and neither is a link without `href`. |
| `Navigation.HighlightLinks` | assets/js/main.js:17-21 | Each link whose `href` equals the page exactly gets colour `#ff5a5f`. Every other link is unchanged. The number and order of links are kept. |
| `Navigation.InitializeNavigation` | assets/js/main.js:13-22 | The same, for the current page computed from the path. |
| `Search.HandleSearch` | assets/js/main.js:44-52 | It navigates exactly when the location holds a character that is not white space. The URL is then the listings URL, and the confirmation names the location and the guests. Otherwise it shows "Please enter a location to search." and does not navigate. |
| `Search.EncodedLocationIsQuerySafe` | assets/js/main.js:49 | The encoded location never holds `&`, `=`, `?` or `#`. |
| `Search.SearchUrlLocationRoundTrip` | assets/js/main.js:49 | In the listings URL, the text after `location=` up to the first `&`, percent-decoded, is the location typed. This holds whatever the unencoded dates and guest count are. |
| `Search.BlankLocationExamples` | assets/js/main.js:44-52 | An empty location and a location of only spaces and tabs are both refused with the missing-location message. |
| `Search.EncodeLocationExample` | assets/js/main.js:49 | `Kigali City` is encoded as `Kigali%20City`. |
| `Forms.HandleSubmit` | assets/js/main.js:75-122 | Each handler navigates exactly when all its own fields are non-empty: login checks email and password, signup checks name, email and password, roommate checks name, email and message. On success it shows its fixed message and goes to `index.html`, `login.html` or `roomates.html`. Otherwise it shows "Please fill in all fields.". |
| `Forms.LogNeverHoldsPassword` | assets/js/main.js:82-99 | The diagnostic record of a successful submission has no `password` field. The login record holds only the email, and the signup record only the name and email. |
| `Forms.PresenceIsNotTrimmed` | assets/js/main.js:80-120 | A field of spaces counts as filled in. An empty field makes the handler refuse. |
| `Listings.FilterListings` | assets/js/main.js:160-174 | Every card is set shown or hidden by the match rule. Titles, descriptions, the number of cards and their order are unchanged. |
| `Listings.MatchesTermOccurrence` | assets/js/main.js:168 | A card is shown exactly when the lower-cased term occurs in its lower-cased title or description. |
| `Listings.EmptyTermShowsAll` | assets/js/main.js:168 | The empty term shows every card. |
| `Listings.MatchIgnoresTermCase` | assets/js/main.js:162-166 | A term and its lower-cased form show the same cards. |
| `Listings.FilterExampleHidden` | assets/js/main.js:160-173 | The term "modern" hides a card titled "Cozy Loft" whose description holds no `m` or `M`. |
| `Listings.FilterExampleShown` | assets/js/main.js:160-173 | The term "modern" shows a card titled "Modern Studio". |
| `Listings.FilterTwoCardsExample` | assets/js/main.js:160-174 | Filtering a "Cozy Loft" card and a "Modern Studio" card for "modern" leaves only the second visible. |

## Left out

- DOM access and event binding are not modelled. This covers `DOMContentLoaded`, `querySelector`/`querySelectorAll`, `addEventListener`, `preventDefault` and `closest`. The handlers take the values they would read from the page as parameters.
- A missing element makes the script throw (a `null` dereference). That failure is not modelled: the model always has the values in hand.
- `alert`, `console.log` and `window.location.href` are only the fields of `Feedback.Outcome`. The blocking behaviour of `alert` and the page load that follows navigation are not modelled.
- The routing in `initializeForms` is not modelled. It chooses the submit handler with `pathname.includes(...)`. Instead, `Forms.Submission` names the form directly. A path containing several page names would bind several handlers; the model does not capture that.
- The hover styling in `initializeListingCards` is left out: it only writes constant CSS strings.
- `bookProperty`, `toggleMobileMenu` and `smoothScroll` are left out: each is one browser call or one alert.
- `formatPrice` is left out: it wraps `Intl.NumberFormat`, whose locale data is not available.
- `lazyLoadImages` is left out: it relies on `IntersectionObserver` callbacks.
- The second `DOMContentLoaded` listener, which only logs a welcome message, is left out.
- `JsText.Lower`: folds ASCII letters only. JavaScript's `toLowerCase` also folds non-ASCII letters such as `É`, so a title with such letters can match differently.
- `JsText.IsWhiteSpace`: uses the space separators of current Unicode. A JavaScript engine built on an older Unicode version may differ.
- Dafny strings hold Unicode scalar values, while JavaScript strings are UTF-16 code units. A lone surrogate, on which `encodeURIComponent` throws `URIError`, cannot be expressed. A supplementary character is one `char` here and a surrogate pair in JavaScript.
- Navigation links and listing cards are values in an array. Element identity, and aliasing between elements, are not modelled.
- `Search.LocationParam` is a reader defined for the round-trip property. How the listings page actually reads its parameters is not part of this model.
