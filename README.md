# Maghrib.Digital site logic in Dafny

This project models the logic inside the Maghrib.Digital website (a Next.js
and React site for US LLC formation and web services aimed at Moroccan
entrepreneurs) and proves properties of it. It covers:

- **FAQ chatbot** (`faq_chatbot.dfy`). There is one knowledge base per locale. The responder is first-match-wins: it lower-cases the message, then tries each entry's keywords as substrings. The chat widget keeps a message list, which `HandleSend` extends in two steps, `Send` and `Answer`.
- **Business-name checker** (`name_checker.dfy`). It has:
  - the simulated Wyoming availability rule (no "test", "admin", "llc" or "corp");
  - the five generated alternative names;
  - the whole-word, case-insensitive removal of legal-form words (LLC, Inc, Corp, Corporation, Ltd, Limited, SARL), written out character by character with the regex `\b` semantics;
  - the widget's validation and state sequence.
- **Locale routing**:
  - the request middleware's pass-through or redirect decision (`middleware.dfy`);
  - the language switcher's rewrite of path segments and its drop-down flag (`language_switcher.dfy`);
  - the homepage predicate that turns on the intro portal (`layout_client.dfy`).
- **Blog index** (`blog.dfy`, `blog_listing.dfy`):
  - the listing over the "en" and "fr" content directories: only Markdown files count, the slug comes from the file name, front matter gets defaults, and the result is sorted newest first;
  - lookup by slug, in language order, preferring ".mdx" to ".md";
  - the per-language filter and the listing page's empty state.
- **Sitemap** (`sitemap.dfy`): the 43 route records and their priority and change-frequency rule.
- **Shared JavaScript string operations** (`text.dfy`): `toLowerCase` (ASCII), `trim`, `startsWith`, `endsWith`, `includes`, `split` and `join`.

Modelling choices:

- State that React keeps in `useState` hooks is a Dafny `class`. Each handler is a method with a `modifies` clause.
- The loops of `getAIResponse`, `getAllPosts` and `getPostBySlug` are methods. Each is proved equal to a specification function, and the properties are proved about those functions.
- The content directory of the blog is a map from language to the file list its directory yields. The current time is a parameter, and dates are integer timestamps.
- The configured locale list and default locale are parameters. They are taken to be non-empty and free of '/'.
- Sitemap priorities are integers in tenths.

## Model

| member | source | states |
|---|---|---|
| Text.LowerChar | src/components/sections/FAQChatbot.tsx:112 | each ASCII capital maps to its own lower-case letter (32 code points further on); every other character is kept |
| Text.Lower | src/components/sections/FAQChatbot.tsx:112 | `toLowerCase` keeps the length of the string and lower-cases each character in place |
| Text.LowerIdempotent | src/components/sections/FAQChatbot.tsx:112 | lower-casing twice is the same as lower-casing once |
| Text.Trim | src/components/sections/FAQChatbot.tsx:143-145 | `trim` returns a result no longer than the input. Its ends are not white space. It is empty exactly when the input is all white space |
| Text.TrimCutsSpace | src/components/sections/FAQChatbot.tsx:143-145 | the result of `trim` is the part of the input at some offset such that everything before and after it is white space |
| Text.TrimIdempotent | src/components/sections/FAQChatbot.tsx:145 | trimming a trimmed string changes nothing |
| Text.Split | src/components/ui/LanguageSwitcher.tsx:30 | `split` always yields at least one piece |
| Text.JoinSplit | src/components/ui/LanguageSwitcher.tsx:30-36 | joining the pieces of a split with the same separator gives back the original string |
| Text.SplitJoin | src/components/ui/LanguageSwitcher.tsx:30-36 | splitting a join of separator-free pieces gives the pieces back |
| FaqChatbot.KnowledgeFor | src/components/sections/FAQChatbot.tsx:111 | the English table is used exactly for "en"; every other locale gets the French one |
| FaqChatbot.GetAIResponse | src/components/sections/FAQChatbot.tsx:110-121 | the responder returns `Respond(message, locale)`: the locale's table, searched in lower case |
| FaqChatbot.ReplyFrom | src/components/sections/FAQChatbot.tsx:112-120 | the loop with its early return computes the first-match reply of one table |
| FaqChatbot.FirstAnswerIsFirstMatch | src/components/sections/FAQChatbot.tsx:114-120 | the reply is entry i's answer only when entry i matches and no earlier entry does. It is the fallback exactly when no entry matches |
| FaqChatbot.ReplyFromLocale | src/components/sections/FAQChatbot.tsx:111-120 | the reply is one of the chosen locale's answers or its fallback, never text from another locale |
| FaqChatbot.NoKeywordGivesFallback | src/components/sections/FAQChatbot.tsx:120 | when no keyword of the locale's table occurs in the message, the locale's fallback is returned |
| FaqChatbot.UnknownLocaleUsesFrench | src/components/sections/FAQChatbot.tsx:111 | any locale other than "en" (such as "ar") gets the same reply as "fr" |
| FaqChatbot.RespondIgnoresCase | src/components/sections/FAQChatbot.tsx:112 | a message and its lower-cased form get the same reply |
| FaqChatbot.HowMuchIsPricing | src/components/sections/FAQChatbot.tsx:60-68 | any English message containing "how much" gets the pricing answer, "how much time" included, because pricing precedes timeline |
| FaqChatbot.QuickQuestions | src/components/sections/FAQChatbot.tsx:160-162 | the three French questions ("Quel est le prix?", "Délai de création?", "Stripe est-il inclus?") for "fr", and the three English ones ("What's the price?", "Timeline?", "Is Stripe included?") for any other locale |
| FaqChatbot.Chat.constructor | src/components/sections/FAQChatbot.tsx:125-130 | an absent locale is "fr". The chat opens with exactly one assistant message, the greeting of the locale's table. Input is empty and nothing is typing |
| FaqChatbot.Chat.SetInput | src/components/sections/FAQChatbot.tsx:274 | typing replaces the input and leaves the messages alone |
| FaqChatbot.Chat.Send | src/components/sections/FAQChatbot.tsx:143-150 | blank or white-space input changes nothing and sends nothing. Otherwise the trimmed text is sent: the input is cleared, the text is appended as the user's message and the typing indicator comes on |
| FaqChatbot.Chat.Answer | src/components/sections/FAQChatbot.tsx:155-157 | after the delay, the reply to the sent text is appended after the current messages and the typing indicator goes off; the input is untouched |
| FaqChatbot.Chat.HandleSend | src/components/sections/FAQChatbot.tsx:143-158 | blank or white-space input changes nothing. Otherwise the input is cleared and exactly two messages are appended after the old ones: the trimmed text, then the reply to it |
| NameChecker.CheckNameAvailability | src/components/sections/NameChecker.tsx:14-45 | `wyoming` is always the verdict, never null. The verdict is true iff the lower-cased name holds none of "test", "admin", "llc", "corp". There are no suggestions iff the name is available. Otherwise there are exactly five: the name plus " Group", " Ventures", " Holdings", " Global", " Solutions" in that order |
| NameChecker.SuggestionsAreTaken | src/components/sections/NameChecker.tsx:18-38 | every alternative offered for a taken name is itself taken under the same rule |
| NameChecker.EmptyNameAvailable | src/components/sections/NameChecker.tsx:14-45 | the empty name is reported available with no suggestions |
| NameChecker.FirstMatchLengthSpec | src/components/sections/NameChecker.tsx:70-72 | a positive length is the length of an alternative that matches as a whole word at the position, ignoring case. It is 0 exactly when none does |
| NameChecker.StripFrom | src/components/sections/NameChecker.tsx:70-72 | the global replace never lengthens the name |
| NameChecker.StripWithoutMatch | src/components/sections/NameChecker.tsx:70-72 | where no legal-form word occurs as a whole word, nothing is removed |
| NameChecker.BoundaryIgnoresCase | src/components/sections/NameChecker.tsx:71 | a `\b` word boundary is at the same positions in the lower-cased name |
| NameChecker.WordMatchIgnoresCase | src/components/sections/NameChecker.tsx:71 | whether one word matches at a position does not depend on letter case |
| NameChecker.MatchIgnoresCase | src/components/sections/NameChecker.tsx:71 | which legal-form word matches first at a position does not depend on letter case |
| NameChecker.StripIgnoresCase | src/components/sections/NameChecker.tsx:71 | stripping the lower-cased name equals lower-casing the stripped name |
| NameChecker.StripLegalWordsIgnoresCase | src/components/sections/NameChecker.tsx:70-72 | the same, for the legal-form word list itself |
| NameChecker.WordAloneIsRemoved | src/components/sections/NameChecker.tsx:70-72 | a string that is one of the words, in any case, is removed entirely |
| NameChecker.StripAtCut | src/components/sections/NameChecker.tsx:71 | a whole-word match never straddles a non-word character: cut at an end of the name or next to a non-word character, the name is stripped as its two parts are and the results are joined, so text around a match is kept |
| NameChecker.LegalSuffixRemoved | src/components/sections/NameChecker.tsx:71 | a legal-form word, in any case, closing a name after a non-word character is removed, and the rest is cleaned as on its own ("Acme LLC" strips as "Acme ") |
| NameChecker.LegalPrefixRemoved | src/components/sections/NameChecker.tsx:71 | a legal-form word, in any case, opening a name before a non-word character is removed, and the rest is cleaned as on its own |
| NameChecker.LegalWordAloneIsRemoved | src/components/sections/NameChecker.tsx:70-72 | a name that is just a legal-form word, in any case, is cleaned down to "" |
| NameChecker.LegalWordsLong | src/components/sections/NameChecker.tsx:71 | every legal-form word has at least three characters |
| NameChecker.LegalWordAloneReportedAvailable | src/components/sections/NameChecker.tsx:59-80 | length is validated before cleaning. So "LLC" (or any other legal-form word) passes validation, is checked as "", and is reported available |
| NameChecker.Checker.constructor | src/components/sections/NameChecker.tsx:49-56 | an absent locale is "fr". The widget starts with an empty name, no result, no error and no check running |
| NameChecker.Checker.OnNameInput | src/components/sections/NameChecker.tsx:170-173 | typing sets the name and clears the error |
| NameChecker.Checker.PickSuggestion | src/components/sections/NameChecker.tsx:263-266 | clicking a suggestion puts it in the name field and clears the results |
| NameChecker.ErrorText | src/components/sections/NameChecker.tsx:59-66 | the error line's text is blank exactly when there is no error. For "fr" the texts are "Veuillez entrer un nom" and "Le nom doit contenir au moins 3 caractères"; for any other locale they are "Please enter a name" and "Name must be at least 3 characters" |
| NameChecker.ValidateRules | src/components/sections/NameChecker.tsx:58-72 | a name is accepted exactly when its trimmed form has at least 3 characters. A blank trimmed name is rejected with the "enter a name" error and a shorter one with the length error. An accepted name is cleaned of its legal-form words |
| NameChecker.Checker.StartCheck | src/components/sections/NameChecker.tsx:58-76 | given the outcome of `Validate`: a rejected name shows its error and starts no check, with nothing else changed. For an accepted name the error is cleared, the check starts, results are reset, and the name to check is the cleaned name |
| NameChecker.Checker.FinishCheck | src/components/sections/NameChecker.tsx:78-85 | the result of the check for the cleaned name is shown and the check ends |
| NameChecker.Checker.HandleCheck | src/components/sections/NameChecker.tsx:58-86 | the whole handler: the two validation errors, or no error, no check running, and the check of the cleaned name as the result |
| Middleware.Decide | middleware.ts:5-29 | a path is passed through exactly when, for some configured locale L, it is "/" + L or starts with "/" + L + "/" (so "/frog" is not "fr"), or when it is skipped ("/_next", "/api", "/blog" or a file with an extension); any other path is redirected, to "/" + default locale followed by the original path |
| Middleware.RedirectTargetHasLocale | middleware.ts:9-28 | the redirect target has the default locale, so a second request is passed through, not redirected again |
| Middleware.LocaleEndsAtSlash | middleware.ts:9-11 | a locale at the head of a path is followed by '/' or ends the path |
| Middleware.FrogIsNotFrench | middleware.ts:9-11 | "/frog" does not count as the locale "fr" |
| Middleware.RootRedirects | middleware.ts:16-28 | "/" is redirected to "/{default}/" |
| Middleware.HasLocaleForBySegments | middleware.ts:9-11 | a path has locale L iff, split on '/', its first piece is empty and its second is L |
| LanguageSwitcher.SwitchedSegments | src/components/ui/LanguageSwitcher.tsx:30-35 | after the rewrite there are at least two segments, the first is unchanged and the second is the new locale |
| LanguageSwitcher.Switcher.constructor | src/components/ui/LanguageSwitcher.tsx:11 | the drop-down starts closed |
| LanguageSwitcher.Switcher.Toggle | src/components/ui/LanguageSwitcher.tsx:44 | the button flips the drop-down |
| LanguageSwitcher.Switcher.MouseDown | src/components/ui/LanguageSwitcher.tsx:18-26 | a press outside the switcher closes the drop-down; one inside leaves it as it was |
| LanguageSwitcher.Switcher.SwitchLocale | src/components/ui/LanguageSwitcher.tsx:28-39 | the new path is the rewritten segments joined with '/', or "/" + locale when that join is empty. The drop-down is closed afterwards |
| LanguageSwitcher.FallbackNeverTaken | src/components/ui/LanguageSwitcher.tsx:36 | the join is never empty, so the new path is always the joined segments |
| LanguageSwitcher.SplitSwitched | src/components/ui/LanguageSwitcher.tsx:30-36 | splitting the new path gives back exactly the rewritten segments |
| LanguageSwitcher.SwitchedSegmentsShape | src/components/ui/LanguageSwitcher.tsx:31-34 | on the segments themselves: a locale in segment 1 is replaced and the rest kept; otherwise the locale is inserted at 1 and the rest shift by one |
| LanguageSwitcher.SegmentsAfterSwitch | src/components/ui/LanguageSwitcher.tsx:31-34 | when segment 1 is a locale it is replaced and every other segment is kept. Otherwise the locale is inserted at 1, later segments shift by one, and the count grows by exactly one |
| LanguageSwitcher.SwitchedPathHasLocale | src/components/ui/LanguageSwitcher.tsx:28-36 | for a path starting with '/', the new path starts with "/" + new locale, and the middleware sees it as having that locale |
| LanguageSwitcher.SwitchedPathNotRedirected | src/components/ui/LanguageSwitcher.tsx:36-37 | the path the switcher navigates to is passed through by the middleware |
| LayoutClient.Portal | src/components/layout/LayoutClient.tsx:19-22 | the portal flag is set exactly on a homepage ("/" or "/" + locale), so only on a path that starts with '/' and is no longer than "/" + locale |
| LayoutClient.HomepagePaths | src/components/layout/LayoutClient.tsx:19 | "/" and "/" + locale are homepages for every locale. With no locale, "/undefined" is one too |
| LayoutClient.NestedPathNotHomepage | src/components/layout/LayoutClient.tsx:19 | a path with a '/' after its first segment, such as "/fr/" or "/fr/blog", is never a homepage |
| LayoutClient.HomepageHasLocale | src/components/layout/LayoutClient.tsx:18-19 | apart from "/", a homepage is exactly a path the middleware sees as having the locale and that is one character longer than it |
| Blog.SlugOf | src/lib/blog.ts:27 | the slug followed by the removed ".mdx" or ".md" is the file name; any other name is kept |
| Blog.Or | src/lib/blog.ts:28-33 | a missing or empty value takes the fallback; any other value is kept |
| Blog.WithDefaults | src/lib/blog.ts:26-35 | each string field keeps a given non-empty value; a missing or empty one becomes "Untitled", "", "Maghrib.Digital", "General" or "/blog/default.jpg" (title, excerpt, author, category, image). A given date is kept and a missing one is the current time. The slug and language are the given ones, and title, author, category and image are never empty |
| Blog.MarkdownFilesMembers | src/lib/blog.ts:18-20 | a file is among the Markdown files exactly when it is in the directory and its name ends in ".md" or ".mdx" |
| Blog.PostsOfMarkdownFiles | src/lib/blog.ts:19-36 | a directory yields exactly one post per Markdown file, in file order: post k is the record of Markdown file k |
| Blog.ScanDirectory | src/lib/blog.ts:19-36 | the loop over one directory's files computes the directory's posts, in file order |
| Blog.PostOfFile | src/lib/blog.ts:19-36 | a given post is listed iff some ".md" or ".mdx" file of the directory gives it |
| Blog.PostsOfMembership | src/lib/blog.ts:19-36 | the same for every post: the listing holds exactly the posts of the Markdown files |
| Blog.PostsOfAllMarkdown | src/lib/blog.ts:19-36 | when every file is Markdown, there is exactly one post per file |
| Blog.CollectedInOrder | src/lib/blog.ts:9-15 | the collected posts are the "en" directory's, then the "fr" directory's |
| Blog.CollectedMembership | src/lib/blog.ts:12-36 | a post is collected iff it comes from a Markdown file of an existing language directory |
| Blog.EnglishCollectedFirst | src/lib/blog.ts:9-12 | before sorting, every English post precedes every French one |
| Blog.DirPostsLang | src/lib/blog.ts:34 | every post of a directory carries that directory's language |
| Blog.InsertByDate | src/lib/blog.ts:40 | inserting adds exactly one post: the multiset grows by that post |
| Blog.InsertKeepsOrder | src/lib/blog.ts:40 | inserting into a newest-first list keeps it newest first |
| Blog.SortNewestFirst | src/lib/blog.ts:40 | the sort output is in non-increasing date order and is a permutation of its input |
| Blog.GetAllPosts | src/lib/blog.ts:8-41 | the nested loops and the sort produce the sorted collected posts |
| Blog.AllPostsSortedPermutation | src/lib/blog.ts:39-40 | the listing is newest first and holds exactly the collected posts |
| Blog.Find | src/lib/blog.ts:51-54 | a file is found iff one with that name exists in the directory |
| Blog.SourceIn | src/lib/blog.ts:47-57 | within one language the ".mdx" file is used when present, else the ".md" file; none iff neither exists |
| Blog.GetPostBySlug | src/lib/blog.ts:43-76 | the loop with its early returns computes the lookup: English before French |
| Blog.LookupInOrder | src/lib/blog.ts:44-57 | lookup takes English if it has the post, else French, else nothing |
| Blog.LookupNoneIff | src/lib/blog.ts:46-75 | lookup returns nothing iff no language has either file |
| Blog.LookupOrder | src/lib/blog.ts:46-72 | a found post has the slug asked for and comes from the first file present in language then extension order |
| Blog.ListedSlugResolves | src/lib/blog.ts:26-57 | every slug of the listing is found by lookup, and an English post's slug resolves to English |
| Blog.OfLanguage | src/lib/blog.ts:79 | the filter never lengthens the list |
| Blog.OfLanguageMembers | src/lib/blog.ts:79 | a post is kept iff it is in the list and has that language |
| Blog.KeptPositionsAt | src/lib/blog.ts:79 | the kept posts are the posts at the kept positions |
| Blog.KeptPositionsIncrease | src/lib/blog.ts:79 | the kept positions increase |
| Blog.KeptPositionsComplete | src/lib/blog.ts:79 | every position holding a post of the language is kept |
| Blog.OfLanguageSubsequence | src/lib/blog.ts:79 | filtering keeps relative order: the result is the subsequence of all posts of that language |
| Blog.OfLanguageSorted | src/lib/blog.ts:78-80 | filtering a newest-first list leaves it newest first |
| Blog.LanguagesPartition | src/lib/blog.ts:79 | since a post is English or French, the two filters split the list, in size and in multiset |
| Blog.PostsByLanguage | src/lib/blog.ts:78-80 | the posts of one language are exactly the listing's posts of that language, newest first |
| BlogListing.FilteredPosts | src/app/blog/BlogListingClient.tsx:18-21 | "all" shows the input unchanged. A language shows exactly the input's posts of that language |
| BlogListing.EmptyMessage | src/app/blog/BlogListingClient.tsx:92-94 | "New articles coming soon!" for "all", "No English articles yet." for English and "No French articles yet." for French |
| BlogListing.EmptyStateIff | src/app/blog/BlogListingClient.tsx:73-96 | the empty state shows iff no post is left: for "all" iff there are no posts, for a language iff none has it |
| BlogListing.FilterKeepsOrder | src/app/blog/BlogListingClient.tsx:20 | the filtered list is a subsequence of the input that keeps every post of the language |
| BlogListing.FiltersPartition | src/app/blog/BlogListingClient.tsx:20 | the English and French views together hold exactly the posts of "all" |
| BlogListing.FilteredListingIsByLanguage | src/app/blog/BlogListingClient.tsx:18-21 | filtering the listing by a language gives `getPostsByLanguage` for it, newest first |
| Sitemap.StaticRoute | src/app/sitemap.ts:65-70 | the url is the base address followed by the route, weekly. Priority is 1 exactly for '', '/en', '/fr', '/ar' and 0.8 otherwise |
| Sitemap.BlogRoute | src/app/sitemap.ts:72-91 | the url is the base address, "/blog/" and the slug; monthly, priority 0.7 |
| Sitemap.BuildLayout | src/app/sitemap.ts:65-93 | the output is the static routes, then the French, English and Arabic articles, each list in its own order |
| Sitemap.AllUrlsOnBase | src/app/sitemap.ts:66-73 | every url starts with the base address |
| Sitemap.PriorityRule | src/app/sitemap.ts:65-91 | static records have priority 1 iff home routes, else 0.8. Every article record is 0.7 and monthly |
| Sitemap.SitemapSize | src/app/sitemap.ts:7-93 | the sitemap has 26 + 8 + 8 + 1 = 43 records |
| Sitemap.SitemapTopPriority | src/app/sitemap.ts:7-69 | exactly the first four records have priority 1 |

## Left out

- Text.Lower: `toLowerCase` is modelled on ASCII letters only. Full Unicode case mapping (for example "É" to "é") is not modelled. The forbidden words and legal-form words are ASCII, but several French chatbot keywords are not ("coût", "délai", "durée", "état", "impôt", "reçu", "résident", "confidentialité").
- NameChecker.ValidateRules: the minimum length counts characters, whereas JavaScript's `length` counts UTF-16 code units. The two differ only for characters outside the Basic Multilingual Plane.
- FaqChatbot.Chat.HandleSend: the 800 ms typing delay itself is not modelled. `Send` and `Answer` are the states before and after it, and `HandleSend` runs them back to back, so it assumes no other event between them.
- The quick-question buttons (src/components/sections/FAQChatbot.tsx:253-258) are not modelled: they put a question in the input and send it from a timer. The timer calls the `handleSend` of the render before `setInput(q)` takes effect, which reads the previous `input`; as written, the button does not send `q`.
- NameChecker.Checker: the `error` field holds which message is shown (none, "enter a name" or the length error), not its text. `NameChecker.ErrorText` gives the French or English text for the widget's locale.
- NameChecker.Checker.HandleCheck: the `catch` branch setting "Error checking name" is not modelled. The availability check it guards cannot fail.
- Some locale values are inherited object keys, such as "constructor". For these, `FAQ_KNOWLEDGE[locale]` would find an inherited property rather than fall back to French; such values are not modelled.
- Blog: reading the file system and parsing front matter are replaced by the map from language to file list. Directory order is part of that input. Invalid or unparseable dates, files that cannot be read, and slugs holding path separators are not modelled.
- Blog.SortNewestFirst: stability is part of the definition, but no lemma states it, and ties between equal dates are not characterised further.
- FaqChatbot.Respond: a French keyword with an accented letter is missed when the message writes that letter in upper case ("ÉTAT" gets the fallback, while the site answers it as "état"), because `Text.Lower` leaves non-ASCII capitals unchanged.
- Blog.WithDefaults: the default date is the `now` parameter, not a clock reading; the date is a timestamp, not an ISO string.
- Sitemap: `lastModified` is the `now` parameter.
- The middleware's `matcher` configuration, `NextResponse`, `router.push`, `usePathname` and `useParams` are framework plumbing. The model takes their inputs as parameters and returns the decision or path instead.
- The locale list and default locale come from a configuration file that is not part of this model. They are parameters, assumed non-empty and free of '/' where a lemma needs it; `Middleware.RedirectTargetHasLocale` also assumes the default locale is one of the locales.
- Rendering, animation and styling of every component are not modelled.
