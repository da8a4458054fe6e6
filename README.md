# REST EndPoints — a Dafny model

REST EndPoints is a WordPress plugin. Through it a site operator can expose
custom post types, registered by other plugins or themes, on the WordPress
REST API. The operator types the post-type names into one text option,
`endpoint_text_field`, as a comma-separated list
(placeholder `Endpoint1, Endpoint2, Endpoint3`). That one string drives two
things:

- **The REST-support hook.** `custom_post_type_rest_support` runs on `init`.
  It sets `show_in_rest = true` on each listed post type's entry in the
  global `$wp_post_types` registry.
- **The "Test EndPoints" section** of the settings page. It lists one link
  per name, to `<site root>/wp-json/wp/v2/<name>`. When the option is
  PHP-empty it shows a "not added any endpoints" notice instead.

Both read the names the same way. `explode(',', …)` splits the string and
keeps empty pieces. `preg_replace('/\s+/', '', …)` then deletes every
whitespace character in each piece, not only at its ends.

The project has three modules, one per concern:

- `endpoint_list.dfy` — module `EndpointList`. It models the stored option
  value, PHP's `empty()`, the `\s` character class, and `explode`, `implode`
  and `preg_replace` as functions. Lemmas cover the count of names, the
  round trips, empty pieces and interior whitespace.
- `rest_support.dfy` — module `RestSupport`. The registry is a class
  `Registry` whose field `types` maps names to `PostType` records. The hook
  is a method with the PHP hook's loop; it is proved against the functions
  `ExposeAll` and `Applied`. Lemmas prove the no-change case, the frame,
  idempotence and order-independence.
- `test_section.dfy` — module `TestSection`. The link list is a pure
  function of the option and an opaque site-root string. Lemmas prove its
  shape and that it agrees with the hook.

The option is one comma-separated string, registered without a sanitize
callback. The test links go to every parsed name, whether or not it is
registered.

## Model

| member | source | states |
|---|---|---|
| `EndpointList.IsEmpty` | rest-endpoints.php:142 | PHP `empty()` on the stored value: only the unset option, `""` and `"0"` are empty, so any setting of two or more characters, blanks included, is not |
| `EndpointList.IsWhitespace` | rest-endpoints.php:146 | the `\s` class holds only ASCII space and control characters, and never the comma separator |
| `EndpointList.Split` | rest-endpoints.php:144 | `explode(',', s)` never yields an empty list; its meaning is fixed by `SplitCount`, `SplitPiecesClean`, `JoinSplit` and `SplitJoin` |
| `EndpointList.BlankSettingGivesEmptyName` | rest-endpoints.php:142-146 | a setting of only whitespace passes the `empty()` guard yet parses to the single empty name |
| `EndpointList.SplitCount` | rest-endpoints.php:144 | `explode(',', s)` yields one piece per comma plus one |
| `EndpointList.SplitPiecesClean` | rest-endpoints.php:144 | no exploded piece holds a comma |
| `EndpointList.StripWhitespace` | rest-endpoints.php:146 | the result holds only characters of the input and no whitespace character, and is no longer than the input |
| `EndpointList.StripEach` | rest-endpoints.php:146 | `preg_replace` over an array gives one result per piece, each the piece with its whitespace deleted |
| `EndpointList.Parse` | rest-endpoints.php:144-146 | the parsed names number the commas plus one, never zero |
| `EndpointList.ParseNamesClean` | rest-endpoints.php:144-146 | no parsed name holds a comma or a whitespace character |
| `EndpointList.JoinSplit` | rest-endpoints.php:144 | joining the exploded pieces with commas gives back the setting exactly |
| `EndpointList.SplitJoin` | rest-endpoints.php:144 | exploding the comma-join of comma-free pieces gives back those pieces, so `explode` is the unique such cut |
| `EndpointList.SplitNoSeparator` | rest-endpoints.php:144 | a string without a comma explodes to itself alone |
| `EndpointList.SplitConcat` | rest-endpoints.php:144 | exploding `a,b` gives the pieces of `a` followed by the pieces of `b` |
| `EndpointList.StripConcat` | rest-endpoints.php:146 | deleting whitespace distributes over concatenation |
| `EndpointList.StripClean` | rest-endpoints.php:146 | a string without whitespace is left unchanged |
| `EndpointList.JoinStripEach` | rest-endpoints.php:144-146 | stripping each piece then joining equals stripping the joined string |
| `EndpointList.StripEachConcat` | rest-endpoints.php:146 | stripping the pieces of two lists equals stripping each list in turn |
| `EndpointList.ParseSingle` | rest-endpoints.php:144-146 | a setting without a comma gives exactly one name, the setting with whitespace deleted |
| `EndpointList.InteriorWhitespaceRemoved` | rest-endpoints.php:146 | a piece `a b` gives the single name `ab`: interior whitespace is deleted, not kept |
| `EndpointList.ParseJoin` | rest-endpoints.php:144-146 | round trip: the names joined with commas equal the setting with all its whitespace deleted, so order is kept |
| `EndpointList.ParseConcat` | rest-endpoints.php:144-146 | the names of `a,b` are the names of `a` followed by the names of `b` |
| `EndpointList.LeadingCommaKept` | rest-endpoints.php:144 | a leading comma gives an empty first name |
| `EndpointList.DoubledCommaKept` | rest-endpoints.php:144 | two consecutive commas give an empty name between the neighbours' names |
| `EndpointList.TrailingCommaKept` | rest-endpoints.php:144 | a trailing comma gives an empty last name |
| `EndpointList.ParseStable` | rest-endpoints.php:144-146 | writing the names back as a comma list and parsing again gives the same names |
| `RestSupport.ExposeOne` | rest-endpoints.php:149 | one assignment: the same keys, the named entry (if registered) gets `show_in_rest` true with its other fields kept, and every other entry is unchanged |
| `RestSupport.Applied` | rest-endpoints.php:139-152 | the hook's effect: the same keys, only `show_in_rest` can change and only from false to true, and a PHP-empty setting changes nothing; `EmptySettingNoChange` and `AppliedFlagsListed` state the listed/unlisted cases |
| `RestSupport.ExposeAll` | rest-endpoints.php:148-149 | after the loop over the names, the registry has the same keys, each listed entry has `show_in_rest` true, and every other field and unlisted entry is unchanged |
| `RestSupport.Unregistered` | rest-endpoints.php:149 | the names the loop cannot find are exactly the listed names that are not registered |
| `RestSupport.Registry.ApplyRestSupport` | rest-endpoints.php:139-152 | the new registry is the old one when the setting is PHP-empty, and otherwise the old one with every parsed, registered name exposed; it returns the unregistered names it skipped |
| `RestSupport.Registry.ExposeListed` | rest-endpoints.php:148-150 | the `foreach` leaves the registry equal to `ExposeAll` of the old registry and the names, and returns the unregistered names in order |
| `RestSupport.EmptySettingNoChange` | rest-endpoints.php:142 | a setting that is `false`, `""` or `"0"` leaves the registry as it was |
| `RestSupport.AppliedFlagsListed` | rest-endpoints.php:148-149 | after the hook every listed registered name is exposed; unlisted entries and all other fields are unchanged; no key is added or removed |
| `RestSupport.AppliedIdempotent` | rest-endpoints.php:148-149 | running the hook twice gives the same registry as running it once |
| `RestSupport.ExposeAllOrderFree` | rest-endpoints.php:148-149 | the registry after the loop depends only on the set of names, not on their order or repetitions |
| `RestSupport.UnregisteredOnlyNoChange` | rest-endpoints.php:149 | a setting that names only unregistered types leaves the registry unchanged |
| `TestSection.Render` | rest-endpoints.php:54-71 | the section is the notice exactly when the setting is PHP-empty, and otherwise holds as many links as commas plus one; `NoticeIffEmpty` and `LinksFollowNames` state each link |
| `TestSection.LinkTo` | rest-endpoints.php:63-64 | a link's URL is the site root and `/wp-json/wp/v2/` followed by the name, and its text is the name |
| `TestSection.Links` | rest-endpoints.php:62-65 | one link per name, in order, each the link for that name |
| `TestSection.Texts` | rest-endpoints.php:64 | the shown texts are the links' texts, in order |
| `TestSection.TextsOfLinks` | rest-endpoints.php:62-65 | the texts shown for a list of names are exactly those names |
| `TestSection.NoticeIffEmpty` | rest-endpoints.php:55-71 | the "no endpoints" notice is shown exactly when the setting is PHP-empty |
| `TestSection.LinksFollowNames` | rest-endpoints.php:57-66 | a non-empty setting gives one link per parsed name, as many as the commas plus one, in order, each with the expected URL and text |
| `TestSection.ShownTextsRoundTrip` | rest-endpoints.php:57-66 | the shown texts joined with commas equal the setting with all its whitespace deleted |
| `TestSection.LinkedTypesExposed` | rest-endpoints.php:62-64 | every listed link whose name is registered points at a post type that the hook has exposed |

## Left out

- WordPress hook wiring and admin-page registration are not modelled. This covers `add_action`, `add_submenu_page`, `add_settings_section`, `add_settings_field`, `register_setting`, `settings_fields`, `do_settings_sections` and `submit_button`. They are calls into the host with no logic of their own.
- HTML output (`echo`, `printf`) is not modelled. The section is modelled as list data (`TestSection.Section`), not markup.
- `get_option` is not modelled. The stored value is a parameter (`StoredOption`: never saved, or saved text).
- `home_url` and `esc_url` are not modelled. The site root is an opaque string prefixed to the route, and no escaping is modelled.
- The third section, which lists public non-builtin post types through `get_post_types`, is not modelled. Its filtering happens inside the host.
- `field_callback` is not modelled. It is rendering only, and it reads a `default` key that the field array never defines.
- `RestSupport.Registry.ApplyRestSupport` models an unregistered name, including the empty name a stray comma produces, as a skip. It reports the name in `skipped`. The PHP hook assigns through a missing registry entry there. Older PHP versions then create an object with a warning, and PHP 8 throws; neither outcome is modelled.
- Registry entries are modelled as values in a map. In WordPress they are `WP_Post_Type` objects, so aliasing between entries is not captured.
- The PCRE engine is not modelled. `\s` is the fixed set space, tab, line feed, vertical tab, form feed and carriage return, as in non-Unicode mode. Strings are sequences of characters; multi-byte encodings are not modelled.
- The option is registered without a sanitize callback (rest-endpoints.php:115); no sanitizing is modelled.
