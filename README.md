# Smart-Buy shop logic in Dafny

Smart-Buy is a small Flask shop. Users sign up with a strength-checked password, sign in, and
search a product catalog by keyword or by the name of an uploaded image. Signed-in users
keep a cart of product names in their session, view it with its total, and confirm an
order. This project models the logic of `app.py` under the web plumbing, and proves what
that logic promises:

- the password policy (`is_strong_password`);
- the keyword search: query normalisation, the keyword whitelist and the substring
  filter, plus the filename filter of the image search;
- the session cart: add, remove-all, the count, and the clear after an order;
- the cart-resolution loop, which appears three times in the source;
- the signup decision against the credential table.

Modules, one per component:

- `Wrappers` (`wrappers.dfy`): `Option`, standing for Python's `None`.
- `Seqs` (`seqs.dfy`): order-preserving filtering (list comprehensions with an `if`), `Map`,
  subsequences and duplicate-freedom, and their lemmas.
- `PyText` (`pytext.dfy`): the Python string operations the code uses, on ASCII text.
  These are `lower`, `strip`, `split()`, `string.punctuation`, the `in` substring test,
  `join` and the root part of `os.path.splitext`. `RFind` is not called by the code; it is
  the `rfind` step inside `posixpath.splitext`.
- `PasswordPolicy` (`password.dfy`): the five rules, a reference definition of the
  deficiency list (the requirements of the failing rules, in rule order), and the
  imperative checker proved equal to it.
- `Catalog` (`catalog.dfy`): products with exact `real` prices, the first-match lookup
  (`next(...)`), the line items and total of a cart as functions, and the resolve loop as a
  method proved against them.
- `ProductSearch` (`search.dfy`): `search` and `image_search`.
- `Sessions` (`session.dfy`): the session as a class with an optional `username` and an
  optional `cart` field, and one method per cart route, plus the search route.
- `Signup` (`signup.dfy`): the credential table as a class with a `rows` field, and the
  signup decision.

The catalog, the form fields and the password hash function are parameters. The sign-in
check of `search`, `add_to_cart`, `cart`, `remove_from_cart` and `checkout_cart`
(`'username' not in session`, app.py:146, 167, 177, 199, 211) is modelled in the matching
`Session` method as a `false` or `None` result that leaves the session untouched; the
caller then redirects to the login page. `ProductSearch.Search` itself is the page content
once that check has passed.

`confirm_cart_order` (app.py:236) and `image_search` (app.py:269) do not test
`'username' in session`, unlike the other cart and search routes; their models have no
check either.

## Model

| member | source | states |
|---|---|---|
| PasswordPolicy.HasUpper | app.py:42 | definition: `re.search(r'[A-Z]', password)` finds a match: some character is an ASCII upper-case letter |
| PasswordPolicy.HasLower | app.py:44 | definition: `re.search(r'[a-z]', password)` finds a match: some character is an ASCII lower-case letter |
| PasswordPolicy.HasDigit | app.py:46 | definition: `re.search(r'[0-9]', password)` finds a match: some character is an ASCII digit |
| PasswordPolicy.HasSpecial | app.py:48 | definition: `re.search(r'[^A-Za-z0-9]', password)` finds a match: some character is not an ASCII letter or digit |
| PasswordPolicy.Holds | app.py:40-48 | definition: the condition of each of the five rules (length at least 8, then the four character classes) |
| PasswordPolicy.Requirement | app.py:41-49 | definition: the five literal messages appended for the five failing rules |
| PasswordPolicy.Deficiencies | app.py:38-50 | definition: the requirement messages of the rules the password breaks, in the fixed rule order (the reference for the method) |
| PasswordPolicy.IsStrongPassword | app.py:38-50 | the successive appends produce exactly the requirements of the failing rules, in the fixed rule order |
| PasswordPolicy.StrongIffAllRulesHold | app.py:38-50 | the list is empty iff the length is at least 8 and there is an uppercase letter, a lowercase letter, a digit and a character outside `[A-Za-z0-9]` |
| PasswordPolicy.RequirementReportedIffRuleFails | app.py:40-49 | each requirement message is present exactly when its own rule fails |
| PasswordPolicy.DeficienciesInRuleOrder | app.py:39-50 | the list is a subsequence of the five messages in their fixed order, has no duplicates and has at most five entries |
| PasswordPolicy.OnlyOneRuleFails | app.py:40-49 | a password breaking one rule only gets exactly that rule's message |
| PasswordPolicy.EmptyPasswordFailsAll | app.py:40-49 | the empty password gets all five messages, in order |
| PasswordPolicy.ExampleStrongPassword | app.py:38-50 | "Abcdef1!" is accepted |
| PyText.IsSpace | app.py:149 | definition: the ASCII characters `str.isspace` accepts (tab to carriage return, 0x1C-0x1F and the space), the whitespace set of `strip()` and `split()` (also app.py:156) |
| PyText.IsPunctuation | app.py:150 | definition: membership in the constant `Punctuation`, the 32 characters of `string.punctuation` |
| PyText.ToLower | app.py:149 | ASCII case folding: upper-case letters move to lower case, every other character is kept, and no upper-case letter remains |
| PyText.Lower | app.py:149 | lower-casing keeps the length and folds each character |
| PyText.LowerIdempotent | app.py:149 | lower-casing twice is lower-casing once |
| PyText.Strip | app.py:149 | definition: `rstrip` after `lstrip` |
| PyText.LStrip | app.py:149 | `strip` drops only leading whitespace, and leaves no whitespace in front |
| PyText.RStrip | app.py:149 | `strip` drops only trailing whitespace, and leaves no whitespace at the end |
| PyText.Split | app.py:156 | definition: skip whitespace, take the maximal run of non-whitespace characters as a word, repeat |
| PyText.SplitOneWord | app.py:156 | a non-empty text without whitespace splits into exactly itself |
| PyText.SplitAtSpace | app.py:156 | a whitespace character separates: the words of `a`, whitespace, `b` are the words of `a` followed by the words of `b` |
| PyText.SplitLeadingWord | app.py:156 | a word at the front, ended by whitespace or by the end, is the first word, followed by the words of the rest |
| PyText.WordIsSplitOut | app.py:156 | a non-empty word without whitespace that stands between whitespace, or at either end, is one of the words returned |
| PyText.SplitJoin | app.py:156 | splitting non-empty whitespace-free words joined by single spaces gives the words back |
| PyText.WordLength | app.py:156 | the front word of `split` has no whitespace and ends at whitespace or at the end of the text |
| PyText.SplitWords | app.py:156 | the words of `split` are non-empty and hold no whitespace |
| PyText.SplitAllSpace | app.py:156 | a text of whitespace only splits into no words |
| PyText.SplitDropsLeadingSpace | app.py:156 | whitespace in front of a text does not change its words |
| PyText.SplitDropsTrailingSpace | app.py:156 | whitespace after a text does not change its words |
| PyText.DeletePunctuation | app.py:150 | definition: the characters of the text outside `string.punctuation`, in order |
| PyText.SpaceIsNotPunctuation | app.py:150 | no whitespace character is in `string.punctuation` |
| PyText.Contains | app.py:161 | definition: the needle is a prefix of the text or of one of its suffixes |
| PyText.ContainsIffOccurs | app.py:161 | the substring test holds exactly when the needle occurs at some position |
| PyText.Join | app.py:70 | definition: the parts with the separator between consecutive parts |
| PyText.ContainsInMiddle | app.py:70 | a substring of one part of a concatenation is a substring of the whole |
| PyText.RFind | app.py:283 | `rfind` gives the last index holding the character, or -1 when there is none |
| PyText.SplitExtRoot | app.py:283 | the root is a prefix of the file name; when shorter, the rest starts with a dot and holds no other dot or slash; when not, the last component has no extension |
| ProductSearch.IsKeyword | app.py:155 | definition: membership in the constant `Keywords`, the eight words saree, dress, shirt, kurti, jeans, lehenga, top, gown |
| ProductSearch.Normalize | app.py:149-150 | definition: lower-case, strip, then delete every punctuation character |
| ProductSearch.SearchTerms | app.py:155-156 | definition: the words of the normalised query that are in the eight-word whitelist, in query order |
| ProductSearch.Search | app.py:149-161 | definition: no product when no search term survives, otherwise the catalog products whose lower-cased name contains some term, in catalog order |
| ProductSearch.MatchesAny | app.py:161 | definition: `any(k in name.lower() for k in terms)` |
| ProductSearch.NormalizedIsClean | app.py:149-150 | the text handed to `split` holds no ASCII punctuation and no upper-case ASCII letter |
| ProductSearch.SearchTermsAreKeywords | app.py:155-156 | a word is a search term iff it is a word of the normalised query and in the eight-word whitelist |
| ProductSearch.NoKeywordNoResults | app.py:155-159 | a query with no whitelisted word has no search terms and shows no product, not the whole catalog |
| ProductSearch.KeywordWordIsTerm | app.py:149-156 | a whitelisted word standing as a word of the normalised query, between whitespace or at either end, is a search term |
| ProductSearch.SearchMembership | app.py:156-161 | a product is shown iff it is in the catalog and its lower-cased name contains some search term |
| ProductSearch.SearchCounts | app.py:158-161 | a product is shown exactly as often as the catalog lists it when some term matches its name, and never otherwise |
| ProductSearch.SearchPreservesOrder | app.py:161 | the products shown are a subsequence of the catalog, in catalog order |
| ProductSearch.EmptyQueryNoResults | app.py:149-159 | the empty query shows no product |
| ProductSearch.SearchIgnoresCase | app.py:149 | lower-casing the query first changes nothing |
| ProductSearch.StripIsRedundant | app.py:149-156 | the words split from the normalised query are the same without the `strip` |
| ProductSearch.ImageSearch | app.py:268-294 | definition: no upload gives the error reply; otherwise the products whose lower-cased name contains the lower-cased file name without extension |
| ProductSearch.ImageKeyword | app.py:283 | definition: the file name without extension, lower-cased |
| ProductSearch.ImageSearchMatches | app.py:270-292 | no upload gives the error reply; with one, a product matches iff its lower-cased name contains the lower-cased file name without extension, in catalog order |
| ProductSearch.ImageSearchCounts | app.py:289-292 | with an upload, a product is matched exactly as often as the catalog lists it when its name contains the keyword, and never otherwise |
| ProductSearch.EmptyFileNameMatchesAll | app.py:283-292 | an upload with an empty file name matches every product, because the empty keyword is in every name |
| Catalog.Resolve | app.py:189-192 | definition: the `next(...)` lookup followed by `if product:`: the first product with the name as a one-element list, or nothing |
| Catalog.LineItems | app.py:185-194 | definition: for each cart entry in order, the first catalog product with that name, or nothing |
| Catalog.Total | app.py:186-193 | definition: the sum of the line items' prices |
| Catalog.Find | app.py:189 | the first catalog index with exactly that name, or none when no product has it |
| Catalog.ResolveCart | app.py:185-194 | the loop yields the line items of the cart and the sum of their prices |
| Catalog.LineItemsCons | app.py:188-193 | line items are resolved entry by entry in cart order: the first entry's match, then the rest's |
| Catalog.LineItemsAtMostEntries | app.py:188-193 | there are never more line items than cart entries |
| Catalog.LineItemsAreFirstMatches | app.py:188-192 | every line item is a catalog product, first in the catalog with its name, and its name is in the cart |
| Catalog.OrphanContributesNothing | app.py:190 | an entry that matches no product changes neither the line items nor, hence, the total, wherever it stands |
| Catalog.TotalIsCartPrice | app.py:186-193 | the total is the sum over the cart entries of each entry's first-match price, with zero for orphans |
| Catalog.LineItemsCount | app.py:188-193 | the first catalog product with a name appears among the line items once per cart entry carrying that name (a later record with the same name never appears) |
| Catalog.RepeatedEntryPrice | app.py:188-193 | a cart of k entries of one name that has a match totals k times the price of its first match |
| Catalog.ExampleCart | app.py:185-194 | Red Saree, Blue Jeans, Red Saree at 20.5 and 15 give three line items, the first and third the same, total 56.0 |
| Sessions.RemoveAll | app.py:204 | definition: the cart entries different from the name, in order |
| Sessions.RemoveAllCounts | app.py:204 | removal leaves no entry equal to the name, and every other name as often as before |
| Sessions.RemoveAllKeepsOrder | app.py:204 | the remaining entries keep their relative order |
| Sessions.RemoveAllIdempotent | app.py:204 | removing the same name twice is removing it once |
| Sessions.RemoveAbsentName | app.py:204 | removing a name that is not in the cart changes nothing |
| Sessions.NamePriceSplits | app.py:186-193 | in any cart, the entries carrying one name add that name's count times its first match's price (zero for an orphan) to the price of the other entries |
| Sessions.Session.CartCount | app.py:233-234 | the count is zero exactly when there is no cart or the cart is empty |
| Sessions.Session.Cart | app.py:180 | definition: `session.get('cart', [])`, the cart or the empty list; also app.py:214 and 241 |
| Sessions.Session.AddToCart | app.py:166-173 | signed in: the cart, created empty when absent, gets the name appended at the end and the count grows by one; otherwise nothing changes |
| Sessions.Session.RemoveFromCart | app.py:198-207 | signed in with a cart: every entry equal to the name is removed; otherwise the session is unchanged |
| Sessions.Session.SearchCatalog | app.py:144-161 | signed in: the products the query shows; otherwise no page |
| Sessions.Session.ViewCart | app.py:176-195 | signed in: the cart's line items and the sum of their prices; otherwise no page |
| Sessions.Session.CheckoutCart | app.py:210-228 | signed in: the cart's line items and the per-entry sum of first-match prices; otherwise no page |
| Sessions.Session.ConfirmCartOrder | app.py:236-267 | the order carries the form, the old cart's line items and their total; afterwards there is no cart and the count is zero |
| Signup.Usernames | app.py:65 | definition: the `username` column of the table, in row order |
| Signup.Decide | app.py:65-76 | definition: a taken username is a duplicate; otherwise a password with deficiencies is weak; otherwise the row of the user with the password's hash is accepted |
| Signup.Apply | app.py:65-76 | definition: only an accepted row is appended to the table |
| Signup.WeakPasswordMessage | app.py:70 | definition: "Password must contain: " then the requirements joined by ", ", then "." |
| Signup.Message | app.py:66-76 | definition: the duplicate, weak-password or success message of a decision |
| Signup.UserStore.constructor | app.py:31-35 | a missing credential table starts empty |
| Signup.UserStore.Signup | app.py:58-78 | a taken username is refused first, then a weak password; only then is the row of the user and the password's hash appended; the message says which |
| Signup.TakenUsernameRefused | app.py:65-66 | a taken username leaves the table unchanged and is told "Username already exists.", whatever the password |
| Signup.NewUsernameGrowsIffStrong | app.py:67-76 | for a new username the table becomes the old one plus the user's row iff the password has no deficiency; otherwise it is unchanged |
| Signup.SignupKeepsUsernamesUnique | app.py:65-75 | if the usernames were distinct before a signup, they are distinct after it |
| Signup.JoinContainsParts | app.py:70 | every joined requirement occurs in the joined text |
| Signup.WeakMessageNamesEveryFailure | app.py:68-70 | the refusal of a weak password names every rule the password breaks |

## Left out

- Flask routing, `redirect`/`url_for`, template rendering and static file serving: framework
  plumbing. A route's redirect is the `false`/`None` result of its method.
- Login, the single-product checkout, `home` and `confirm_order`: these routes are
  not part of this model. The session starts with its user as the constructor's argument.
- `Signup.UserStore.Signup`: the table is kept exactly as written, which the file is not.
  `pd.read_excel` (app.py:35) reads a stored username of `""`, `"NA"`, `"N/A"`, `"NULL"`,
  `"null"`, `"NaN"`, `"nan"`, `"None"` or `"#N/A"` back as a missing value. So the source
  accepts a second signup as `"NA"` (app.py:65, 74-75), where the model refuses it; the
  refusal of a taken name and the uniqueness of usernames hold for `rows`, not for such
  names in the file. `to_excel` (app.py:75) fails on a username holding an ASCII control
  character other than tab, line feed and carriage return, and then writes no row, where
  the model appends one. bcrypt uses at most 72 bytes of the password and, depending on its
  version, truncates a longer one or refuses it at app.py:72; the total `hash` parameter
  expresses neither.
- Reading and writing `users.xlsx` with pandas: file I/O. The table is the `rows` field of
  `UserStore`. The concurrent writers that may race on the file are not modelled either.
- Loading `products.json` on every request: file I/O. The catalog is a parameter.
- bcrypt: hashing is the parameter `hash`. A real bcrypt hash is salted at random, so the same
  password hashes differently each time; the model's `hash` cannot express that.
- `float(product['price'])` and float rounding: prices are exact `real` numbers.
- `PyText.Lower`: does not model Python's Unicode `lower()`, because only ASCII letters are
  folded.
- `PyText.Split`, `PyText.Strip`: whitespace outside ASCII is not treated as whitespace.
- A missing form field: `request.form.get` returning `None`, and `request.form[...]` failing,
  are not modelled. Names and order fields are strings.
- `image_search` saving the upload into `temp_uploads`: file I/O, and the failures it can
  raise before any matching happens. With an empty file name the source fails at
  `image.save` on the directory path `temp_uploads/` (app.py:276-278); the model instead goes
  on to match, and `ProductSearch.EmptyFileNameMatchesAll` shows it then returns the whole
  catalog.
- Product fields other than name and price: they are passed through, and `image` stands
  for all of them.
- `PyText.SplitExtRoot`: follows `posixpath`, where only `/` separates path components.
  On Windows `os.path` is `ntpath`, which also splits at `\` and after a drive colon; that
  variant is not modelled.
- `scripts/voice_search.js` and `scripts/image_search.js`: browser glue with no logic of
  its own.
