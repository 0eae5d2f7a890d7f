# php-xmlutil core, modelled in Dafny

This project models the core of the PHP library byjg/php-xmlutil and proves properties about that model. It covers three pieces.

1. **The entity-to-XML mapper** (`EntityParser`, driven by `XmlEntity` and `XmlProperty`).
   - The value to map is closed: a scalar, `null`, an array of `(key, value)` entries, or an object. An object carries its class as reflection shows it, plus the `(rule, property, value)` list that `Serialize::parseAttributes` hands to the transformer.
   - The DOM the mapper fills is an element tree. It is threaded through as the element being filled (`Mapping.Built.node`), plus the namespace declarations queued for the document element (`Mapping.Built.docNs`). The queue exists because `XmlNode::addNamespace` always declares on the document element.
   - Module `Mapping` defines the mapper as functions. Class `EntityParser.EntityParser` holds:
     - the `$properties` cache, as a map field;
     - the mapper's loops as methods, each proved equal to its function.
   - Modules `MappingLaws` and `EntityParserLaws` hold the proved properties:
     - metadata resolution;
     - root namespace;
     - field naming;
     - scalar placement;
     - the result of mapping a scalar array;
     - that filling a node keeps its namespace, its declarations and its name;
     - the cache's memo behaviour and its anonymous-class quirk.
2. **The node-tree helpers** of `XmlNode` and `XmlUtil`.
   - A DOM document is a class `Dom.Document` with these fields:
     - the document element;
     - `XmlUtil`'s per-document prefix registry (`$xmlNsPrefix`);
     - the two layout flags.
   - A node wrapper is a handle: the document, or a path of child indices from the document element.
   - Each operation is a specification function on the old tree, plus a method that updates the `Document` and is proved to do what the function says. The laws modules state what each function promises.
   - The two classes differ where the code differs, and the model keeps both versions:
     - `XmlNode::addTextNode` drops `"0"` (`empty()`), but `XmlUtil::addTextNode` keeps it (`is_numeric()`);
     - `XmlUtil` checks prefixes against its registry, and `XmlNode` does not;
     - `XmlNode` treats a URI `"0"` as no URI, and `XmlUtil` does not.
3. **XML declaration repair** (`fixXmlHeader` and `removeBom`, identical in `XmlDocument` and `XmlUtil`), plus the `&amp;` rewrite before loading.
   - The three PCRE patterns are written out as deterministic matchers.
   - The laws prove the following:
     - a BOM is dropped;
     - the default header is prepended when there is no declaration;
     - an unterminated declaration raises code 251;
     - the text after the first `?>` passes through unchanged;
     - forcing `version` and `encoding` leaves exactly the forced value on the first match, and doing it again changes nothing;
     - for a declaration opening with `<?xml `, the whole repair leaves "1.0" and "utf-8" as the first `version` and `encoding`, and a short declaration that does not open so loses its version;
     - the swap puts `version` before `encoding`.

PHP strings are `seq<char>` with one character per byte. Supporting modules:
- `Php`: the string built-ins the code uses (`empty()`, `is_numeric()`, `strtolower`, `strtok`, `strpos`, `strrpos`, `str_replace`, `htmlspecialchars` with PHP 8.1 defaults).
- `Dom`: the element-tree operations of ext/dom that the code calls (`appendChild`, `insertBefore`, `removeChild`, `setAttributeNode`, `createElement`, `getElementsByTagName`).
- `ArrayTree`: the nested arrays of `xml2Array` / `_toArray`.

Where the code and the documented behaviour of the library differ, the model follows the code:
- `parse` passes its metadata to `arrayToXml`, so `addNamespaces` never renames the root with `usePrefix` (src/EntityParser.php:43, 133-136).
- Numeric-keyed scalar array entries become `item` elements one by one (src/EntityParser.php:169). They are not grouped.
- `EntityParser` reads `getIsAttributeOf()` from `XmlProperty` (src/EntityParser.php:142), but src/Attributes/XmlProperty.php in this revision has no such parameter or getter. The model gives `XmlProperty` an optional `isAttributeOf` path, so that all three placements of `processScalar` are modelled.

## Model

| member | source | states |
|---|---|---|
| Attributes.EntityPreservesCaseOfNamedRoot | src/Attributes/XmlEntity.php:21 | an explicit root name always preserves case |
| Attributes.EntityCaseFlagWithoutName | src/Attributes/XmlEntity.php:21 | without a root name the case flag is the one passed |
| Attributes.EntityGetters | src/Attributes/XmlEntity.php:17-49 | every getter returns its constructor argument |
| Attributes.EntityDefaults | src/Attributes/XmlEntity.php:17 | the constructor defaults: no name, no namespaces, case folded, namespace root on, no prefix |
| Attributes.PropertyPreservesCaseOfNamedElement | src/Attributes/XmlProperty.php:20 | an explicit element name always preserves case |
| Attributes.PropertyCaseFlagWithoutName | src/Attributes/XmlProperty.php:20 | without an element name the case flag is the one passed |
| Attributes.PropertyGetters | src/Attributes/XmlProperty.php:16-42 | every getter returns its constructor argument |
| Attributes.PropertyDefaults | src/Attributes/XmlProperty.php:16 | the constructor defaults: no name, no namespaces, case folded, not an attribute |
| Mapping.LastSegment | src/EntityParser.php:74-75 | the short class name is a backslash-free suffix of the name, and the whole name when there is no backslash |
| Mapping.ReflectionClassMeta | src/EntityParser.php:53-77 | accepted values always resolve to a root element name |
| MappingLaws.MetaOfPlain | src/EntityParser.php:55-56 | arrays and stdClass give root `root`, no namespaces, no prefix; scalars and null are a TypeError |
| MappingLaws.MetaAmbiguous | src/EntityParser.php:61-62 | two or more XmlEntity attributes raise the error with code 258 |
| MappingLaws.MetaOfUnannotated | src/EntityParser.php:73-76 | no attribute: `root` for an anonymous class, otherwise the lower-cased last segment of the class name (itself backslash-free), no namespaces, no prefix |
| MappingLaws.MetaOfAnnotated | src/EntityParser.php:63-72 | one attribute: its root name or the short name, lower-cased unless case is preserved; its namespaces; a non-empty prefix gets `:` appended, an empty one is dropped |
| MappingLaws.MetaPrefixEndsInColon | src/EntityParser.php:71 | every resolved prefix ends in `:` |
| Mapping.NsGet | src/EntityParser.php:34-35 | `$list[$prefix]` is the value of an entry with that key |
| Mapping.NsUnset | src/EntityParser.php:36 | `unset` removes the key and keeps every other key |
| MappingLaws.NsUnsetKeeps | src/EntityParser.php:36 | every entry under another key survives `unset` |
| MappingLaws.RootNamespaceLaws | src/EntityParser.php:31-37 | no `:` gives no namespace and the full list; a declared prefix gives its URI and leaves the list; an undeclared prefix gives no namespace; entries under other keys stay |
| MappingLaws.ApplyNsConcat | src/EntityParser.php:39-41 | declaring two lists in turn is declaring their concatenation |
| Mapping.AddNamespaces | src/EntityParser.php:79-94 | the entity's namespaces are queued for the document element; only the node's name may change |
| MappingLaws.PrefixedNameLaws | src/EntityParser.php:84-93 | the renamed node starts with the prefix; renaming again changes nothing; an unprefixed name gets the prefix in front; a name already carrying it is kept |
| MappingLaws.AddNamespacesIdempotent | src/EntityParser.php:79-94 | applying `addNamespaces` twice gives the same name and, once declared, the same declarations as once |
| MappingLaws.FieldNameLaws | src/EntityParser.php:139-140 | an explicit element name is used verbatim; otherwise the property name is lower-cased unless the rule preserves case |
| MappingLaws.ProcessScalarLaws | src/EntityParser.php:192-203 | the three placements: an attribute here, an attribute on the node the `isAttributeOf` path selects (NodeNotFound otherwise), or a child named with the prefix and holding the escaped text; each with its name check, and nothing else changed |
| MappingLaws.ProcessScalarExtends | src/EntityParser.php:192-203 | placing a scalar keeps the node's name, namespace and declarations |
| MappingLaws.TransformLaws | src/EntityParser.php:138-147 | arrays go to processArray, objects to processObject, scalars and null (as "") to processScalar |
| MappingLaws.TransformExtends | src/EntityParser.php:138-147 | one property keeps the node's name, namespace and declarations, and only adds to the queue |
| MappingLaws.ProcessObjectLaws | src/EntityParser.php:181-190 | an object becomes exactly one new last child, in no namespace, named after the sanitised property name with the object's own prefix; the queue grows by the object's own namespaces; the child is the object's members folded under its own metadata into an empty element of that name; earlier children and the node's fields stay; a refused name is reported before a refused class |
| MappingLaws.ProcessObjectExtends | src/EntityParser.php:181-190 | processObject keeps the parent's name, namespace and declarations |
| MappingLaws.ProcessArrayExtends | src/EntityParser.php:157-179 | processArray keeps the node's name, namespace and declarations |
| MappingLaws.EntryStepExtends | src/EntityParser.php:168-176 | one array entry keeps the node's name, namespace and declarations |
| MappingLaws.FoldEntriesExtends | src/EntityParser.php:167-177 | the loop over entries keeps the node's name, namespace and declarations |
| MappingLaws.MemberStepExtends | src/EntityParser.php:138-154 | one member keeps the node's name, namespace and declarations |
| MappingLaws.FoldMembersExtends | src/EntityParser.php:149-154 | all members in turn keep the node's name, namespace and declarations |
| MappingLaws.ArrayToXmlExtends | src/EntityParser.php:131-155 | filling keeps the node's namespace and declarations and only adds to the queue; with metadata given it keeps the name too |
| MappingLaws.ParseFails | src/EntityParser.php:26-46 | a class-metadata error is parse's error, and a refused root element makes parse fail |
| MappingLaws.ParseRoot | src/EntityParser.php:29-38 | with a namespace from the root name's prefix, the root keeps the metadata's name and takes that URI; without one it gets the sanitised name and no URI; filling never renames it |
| MappingLaws.ParseDeclares | src/EntityParser.php:39-41 | every prefix left in the entity's list is declared on the document element, and no prefix twice |
| MappingLaws.ItemNodeLaws | src/EntityParser.php:169 | a numeric key names its element `item`; the element holds the escaped text, which contains no markup |
| MappingLaws.ZeroEntryIsEmpty | src/EntityParser.php:169 | a scalar entry "0" gives an element without text, because XmlNode's addTextNode treats "0" as empty |
| MappingLaws.ScalarEntryStep | src/EntityParser.php:168-169 | a scalar entry appends its element, or is refused for its name |
| MappingLaws.FoldScalarEntries | src/EntityParser.php:167-177 | the loop over scalar entries appends one element per entry, in order, or fails when a name is refused |
| MappingLaws.ProcessScalarArray | src/EntityParser.php:157-179 | a scalar array under a non-numeric name becomes one wrapper holding one element per entry; under a numeric name the elements go directly under the node; Ok exactly when every name is accepted |
| EntityParser.AssignLaws | src/EntityParser.php:118 | the PHP key assignment adds the key, appends a new key last, keeps an existing key in place and leaves other entries alone |
| EntityParser.EntityParser.constructor | src/EntityParser.php:17 | the cache starts empty |
| EntityParser.EntityParser.ParseProperties | src/EntityParser.php:96-122 | returns what ParsePropertiesSpec gives, and leaves the cache it gives |
| EntityParser.EntityParser.FillRules | src/EntityParser.php:113-119 | the loop leaves under the class name the rules of its first `i` properties |
| EntityParserLaws.RulesUpToNames | src/EntityParser.php:113-119 | the cached rules are keyed by exactly the properties that carry an XmlProperty attribute |
| EntityParserLaws.RulesUpToIsAnnotated | src/EntityParser.php:113-121 | with unique property names, the cached rules equal the reference list of annotated properties, each with its first attribute, in order |
| EntityParserLaws.ParseFreshClass | src/EntityParser.php:102-121 | a named class seen for the first time gets the reference list, and the cache stores it under the class name |
| EntityParserLaws.ParsePropertiesMemo | src/EntityParser.php:102-104 | a second call leaves the cache unchanged, and gives the same answer unless the first answer was null for an anonymous class |
| EntityParserLaws.AnonymousQuirk | src/EntityParser.php:106-111 | an anonymous class gives null the first time and `[]` every later time, because the cache entry is written before the check |
| EntityParserLaws.CacheFrame | src/EntityParser.php:98-106 | stdClass is never cached; a declared class adds exactly its own key; other entries are untouched; a cached class is answered from the cache |
| EntityParser.EntityParser.Parse | src/EntityParser.php:26-46 | the imperative parse computes Mapping.Parse |
| EntityParser.EntityParser.ArrayToXml | src/EntityParser.php:131-155 | the loop over members computes Mapping.ArrayToXml |
| EntityParser.EntityParser.Transform | src/EntityParser.php:138-147 | the transformer computes Mapping.Transform |
| EntityParser.EntityParser.ProcessObject | src/EntityParser.php:181-190 | computes Mapping.ProcessObject |
| EntityParser.EntityParser.ProcessArray | src/EntityParser.php:157-179 | the wrapper, then the loop over entries, computes Mapping.ProcessArray |
| EntityParser.EntityParser.ProcessEntries | src/EntityParser.php:167-177 | the loop over the entries computes Mapping.FoldEntries, stopping at the first error |
| EntityParser.EntityParser.ProcessEntry | src/EntityParser.php:168-176 | one entry, as an item or named element, a nested array or an object, computes Mapping.EntryStep |
| XmlNode.Target | src/XmlNode.php:333-339 | a document wrapper acts on the document element (null when there is none); an element wrapper on itself |
| XmlNode.NewElement | src/XmlNode.php:33-49 | without a URI (an `empty()` one) the sanitised name is used and accepted exactly when non-empty and not starting with a digit; with a URI the name is used as given |
| XmlNode.WithText | src/XmlNode.php:98-114 | a PHP-empty text adds nothing; any other text becomes the last child; the element's other fields stay |
| XmlNodeLaws.CreateChildLaws | src/XmlNode.php:62-68 | the element is created before the target is looked up, so a refused name is the error even without a document element; the new element with its text becomes the last child of the target, and the returned handle points at it; the rest of the tree is unchanged |
| XmlNode.CreateChild | src/XmlNode.php:62-68 | performs CreateChildSpec on the document, or leaves it unchanged on failure |
| XmlNodeLaws.CreateChildBeforeLaws | src/XmlNode.php:82-89 | a refused name is reported first; the new element is inserted just before the node, which moves one place on; the document element has no sibling slot |
| XmlNode.CreateChildBefore | src/XmlNode.php:82-89 | performs CreateChildBeforeSpec |
| XmlNodeLaws.AddTextNodeLaws | src/XmlNode.php:98-114 | "" and "0" add nothing; any other text is appended as a text or CDATA node |
| XmlNode.AddTextNode | src/XmlNode.php:98-114 | performs AddTextNodeSpec |
| XmlNodeLaws.AddAttributeLaws | src/XmlNode.php:126-137 | an invalid name is refused before the target is looked up; the attribute is set or replaced on the target, other attributes stay, and no prefix is checked |
| XmlNode.AddAttribute | src/XmlNode.php:126-137 | performs AddAttributeSpec |
| XmlNodeLaws.SelectSingleNodeLaws | src/XmlNode.php:147-180 | the selected node lies below the target and its names follow the path; when some node does, one is found |
| DomLaws.StripLeadingSlashCases | src/XmlNode.php:149-151 | exactly one leading `/` is removed, and only when a non-`/` follows it |
| XmlNodeLaws.RemoveNodeLaws | src/XmlNode.php:254-260 | the node leaves its parent's children and the parent is returned; removing the document element empties the document |
| XmlNode.RemoveNode | src/XmlNode.php:254-260 | performs RemoveNodeSpec |
| XmlNode.RemoveTagName | src/XmlNode.php:269-278 | changes the document as RemoveFirstTag says: by DomLaws.RemoveFirstTagLaws it removes an element carrying the tag that no earlier element in document order shares, and says whether there was one |
| DomLaws.RemoveFirstTagLaws | src/XmlNode.php:269-278 | true exactly when some element carries the tag; false leaves the tree unchanged; true removes an element carrying the tag, and no element before it in document order carries it |
| DomLaws.FindTagFirst | src/XmlNode.php:271-272 | `getElementsByTagName(...)->item(0)` is the first match: no element before it in document order carries the tag |
| DomLaws.PreorderBeforeMeans | src/XmlNode.php:271-272 | the document order used is: an ancestor comes first, and otherwise the path smaller at the first index where the two differ |
| XmlNodeLaws.AddNamespaceLaws | src/XmlNode.php:317-320 | the prefix is declared on the document element, whatever node is wrapped; other declarations stay |
| XmlNode.AddNamespace | src/XmlNode.php:317-320 | performs AddNamespaceSpec |
| XmlNode.SplitTrail | src/XmlNode.php:195-199 | the text after the last `>` is split off; the two parts join back to the input |
| XmlNodeLaws.InnerSplitLaws | src/XmlNode.php:192-226 | the intended split loses nothing: its parts join back to the `<br>`-closed input, and the markup part starts with `<` and ends with `>` |
| XmlNodeLaws.InnerSplitLosesTrail | src/XmlNode.php:195-202 | as written, text after the last `>` is lost when the rest holds no `<` |
| XmlNodeLaws.LosesTrailExample | src/XmlNode.php:195-202 | "a>b" keeps only "a>" |
| XmlNodeLaws.InnerSplitDropsZero | src/XmlNode.php:222-225 | as written, trailing text "0" is dropped by `empty()` |
| XmlNodeLaws.DropsZeroExample | src/XmlNode.php:222-225 | "<b/>0" loses its "0" |
| XmlNodeLaws.ToArrayLaws | src/XmlNode.php:286-311 | `_toArray` keeps the keys and their order, maps each leaf through the function when one is given, and is the identity without one |
| ArrayTree.MapEntriesAt | src/XmlNode.php:298-306 | entry `k` of the mapped array has the same key, its leaf mapped and its sub-array mapped recursively |
| ArrayTree.MapIdentity | src/XmlNode.php:305 | mapping with the identity changes nothing |
| ArrayTree.MapCompose | src/XmlNode.php:298-306 | mapping twice is mapping with the composed function |
| DomLaws.SanitiseLaws | src/XmlNode.php:39 | sanitising keeps the length, replaces every byte outside `[\w:]` by `_`, keeps the others, and is idempotent |
| DomLaws.SanitisedNameValid | src/XmlNode.php:39 | a sanitised name is a valid element name exactly when it is non-empty and does not start with a digit |
| DomLaws.AppendChildAtLaws | src/XmlNode.php:66 | `appendChild` adds the node after the target's children and changes nothing else |
| DomLaws.InsertChildAtLaws | src/XmlNode.php:87 | `insertBefore` puts the node at the index and shifts the later children by one |
| DomLaws.RemoveChildAtLaws | src/XmlNode.php:257 | `removeChild` deletes exactly one child and keeps the order of the others |
| DomLaws.InsertRemoveRoundTrip | src/XmlNode.php:87 | removing the item inserted at an index gives the sequence back, and so does re-inserting a removed item |
| DomLaws.ReplaceAtUndo | src/XmlNode.php:66 | putting back the old element at a path undoes a replacement there |
| DomLaws.InsertThenRemove | src/XmlNode.php:87 | removing a child that was just inserted gives the tree back |
| DomLaws.RemoveNodeAtLaws | src/XmlNode.php:256-259 | removing the document element leaves no element; otherwise the parent loses exactly that child |
| DomLaws.SetAttrAtLaws | src/XmlNode.php:132-134 | setting an attribute changes only the target element's attributes |
| DomLaws.RemoveAttrLaws | src/XmlNode.php:132-134 | unlinking the old attribute of that name leaves no attribute of that name, keeps the others and keeps names unique |
| DomLaws.SetAttrLaws | src/XmlNode.php:132-134 | the attribute now has the value, others keep theirs, and names stay unique |
| DomLaws.SetNsLaws | src/XmlNode.php:319 | the prefix now maps to the URI, other prefixes keep theirs, and prefixes stay unique |
| DomLaws.ApplyNsLookup | src/EntityParser.php:39-41 | after declaring a list, a prefix maps to the list's last URI for it, or to what it had |
| DomLaws.ApplyNsIdempotent | src/EntityParser.php:39-41 | declaring the same list twice changes nothing more |
| DomLaws.ApplyNsDeclares | src/EntityParser.php:39-41 | after declaring a list, every prefix of the list is declared, with the list's last URI for it |
| DomLaws.ApplyNsOverDeclared | src/EntityParser.php:39-41 | declaring prefixes already declared only overrides their URIs |
| DomLaws.SetNsPresent | src/XmlNode.php:319 | re-declaring a prefix replaces its URI in place |
| DomLaws.SetNsAbsent | src/XmlNode.php:319 | a new prefix is declared last |
| DomLaws.ApplyNsFresh | src/EntityParser.php:39-41 | new distinct prefixes are declared once each, in the list's order |
| DomLaws.SelectComplete | src/XmlNode.php:175-180 | the path search finds a node whenever some node below matches the path |
| DomLaws.SplitJoin | src/XmlNode.php:147-165 | the path is read as its `/`-separated steps without losing anything: joining the steps back gives the path |
| DomLaws.FindTagComplete | src/XmlNode.php:271-272 | `getElementsByTagName` finds an element whenever one carries the tag |
| Php.LowerFolds | src/EntityParser.php:68 | `strtolower` keeps the length, leaves no upper case, is idempotent and keeps lower-case text |
| Php.EscapeCharLaws | src/EntityParser.php:195-199 | each escaped character has no markup character, and a character that is not special is kept |
| Php.ReplaceAbsent | src/XmlDocument.php:42 | `str_replace` of a pattern that does not occur changes nothing |
| Php.EscapeLeavesNoMarkup | src/EntityParser.php:195-199 | `htmlspecialchars` output holds no markup character, is at least as long, and leaves text without special characters alone |
| XmlUtil.DocumentFlags | src/XmlUtil.php:46-59 | FORMAT_OUTPUT sets formatting and turns whitespace preservation off; otherwise whitespace is kept unless DONT_PRESERVE_WHITESPACE is set |
| XmlUtil.CreateXmlDocument | src/XmlUtil.php:46-59 | a fresh empty document with the decoded flags and an empty prefix registry |
| XmlUtilLaws.DocumentFlagsCases | src/XmlUtil.php:49-56 | the four combinations of the two layout bits |
| XmlUtilLaws.DocumentFlagsIgnoreAmpersand | src/XmlUtil.php:49-56 | the DONT_FIX_AMPERSAND bit does not affect the flags |
| XmlUtilLaws.XmlSourceLaws | src/XmlUtil.php:97-100 | the header is always repaired; `&amp;` becomes `&` unless DONT_FIX_AMPERSAND is set |
| XmlUtilLaws.PrefixOfLaws | src/XmlUtil.php:686-687 | a name without `:` has no prefix, and a prefix is only found in a name with one |
| XmlUtilLaws.PrefixOfPrefixed | src/XmlUtil.php:686 | `p:local` is registered under `p` |
| XmlUtil.CheckPrefix | src/XmlUtil.php:681-693 | the check fails only with the undefined-prefix error |
| XmlUtilLaws.CheckPrefixLaws | src/XmlUtil.php:681-693 | unprefixed names pass; a prefixed name passes exactly when its prefix is registered |
| XmlUtilLaws.CreateChildNodeLaws | src/XmlUtil.php:650-674 | without a URI the prefix is checked and the name sanitised, and the registry is unchanged; with a URI the name is used as given |
| XmlUtilLaws.CreatedPrefixUsable | src/XmlUtil.php:662-666 | a prefixed element created on the document with a URI registers the prefix, which later checks accept |
| XmlUtilLaws.WithUtilTextLaws | src/XmlUtil.php:326 | the new element gets one text child exactly when the text is not "" |
| XmlUtilLaws.CreateChildLaws | src/XmlUtil.php:319-329 | an `empty()` name is refused; otherwise the element with its text is appended (a second element under the document is refused), and the returned handle points at it |
| XmlUtil.CreateChild | src/XmlUtil.php:319-329 | updates the document and the registry as CreateChildSpec says |
| XmlUtilLaws.RegistryOutlivesRefusal | src/XmlUtil.php:325-327 | a prefix registered while creating the node stays registered when the append is refused |
| XmlUtilLaws.KeepsTextIffNonEmpty | src/XmlUtil.php:373 | XmlUtil's text guard keeps every text except "" |
| XmlUtilLaws.TextGuardsDiffer | src/XmlUtil.php:373 | XmlUtil adds the text "0" and XmlNode drops it |
| XmlUtilLaws.AddTextNodeLaws | src/XmlUtil.php:371-382 | "" adds nothing; other text becomes the last child of an element and is refused by the document |
| XmlUtil.AddTextNode | src/XmlUtil.php:371-382 | performs AddTextNodeSpec |
| XmlUtilLaws.AddAttributeLaws | src/XmlUtil.php:394-403 | the prefix check comes first; the attribute is then set or replaced, and other attributes stay |
| XmlUtil.AddAttribute | src/XmlUtil.php:394-403 | performs AddAttributeSpec |
| XmlUtilLaws.AddNamespaceToDocumentLaws | src/XmlUtil.php:249-262 | without a document element the call is refused; otherwise the prefix is declared there and registered |
| XmlUtil.AddNamespaceToDocument | src/XmlUtil.php:249-262 | updates the document element and the registry together, or neither |
| XmlUtil.RemoveTagName | src/XmlUtil.php:590-600 | changes the document as RemoveFirstTag says, so it removes the first element in document order with the tag (DomLaws.RemoveFirstTagLaws), and says whether there was one |
| XmlUtilLaws.Xml2ArrayLaws | src/XmlUtil.php:602-627 | keys are kept; leaves go through the function unless its name is `empty()`, in which case the array is unchanged |
| XmlHeaderLaws.RemoveBomLaws | src/XmlDocument.php:126-129 | a leading EF BB BF is dropped, and other input is kept whole |
| XmlHeaderLaws.FixWithoutDeclaration | src/XmlDocument.php:120-123 | without `<?xml` the default declaration is prepended |
| XmlHeaderLaws.FixUnterminated | src/XmlDocument.php:74-84 | `<?xml` without `?>` raises code 251 |
| XmlHeaderLaws.FixPassesTail | src/XmlDocument.php:74-77 | everything after the first `?>` passes through unchanged |
| XmlHeaderLaws.ForceAttrLaws | src/XmlDocument.php:87-108 | after forcing, the first attribute has exactly the forced value, and forcing again changes nothing |
| XmlHeaderLaws.VersionForced | src/XmlDocument.php:88-97 | one version-forcing step, taken alone, leaves "1.0" as the first `version` |
| XmlHeaderLaws.EncodingForced | src/XmlDocument.php:99-108 | one encoding-forcing step, taken alone, leaves "utf-8" as the first `encoding` |
| XmlHeaderRepair.ForcedAfterOpening | src/XmlDocument.php:87-108 | a forcing step on a declaration opening with `<?xml ` keeps that opening and puts the forced attribute first, after it |
| XmlHeaderRepair.EncodingKeepsVersion | src/XmlDocument.php:99-108 | forcing the encoding, by rewriting an existing one or inserting at offset 6, keeps the forced version as the first `version` |
| XmlHeaderRepair.SwapKeepsBoth | src/XmlDocument.php:111-117 | the position swap keeps the forced version and the forced encoding as the first of each |
| XmlHeaderRepair.RepairForcesBoth | src/XmlDocument.php:79-117 | for a declaration opening with `<?xml ` (or `<?xml?>`), the whole repair (widening, both forcing steps, swap) leaves "1.0" as the first `version` and "utf-8" as the first `encoding` |
| XmlHeaderRepair.DefaultHeaderForced | src/XmlDocument.php:120-121 | the default declaration holds `version="1.0"` first at offset 6 and `encoding="utf-8"` first at offset 20 |
| XmlHeaderRepair.FixXmlHeaderForces | src/XmlDocument.php:69-124 | when the text (after its BOM) has no declaration, or its declaration opens it with `<?xml ` or `<?xml?>`, the repaired text's first `version` is "1.0" and first `encoding` is "utf-8" |
| XmlHeaderRepair.InsertSplitsVersion | src/XmlDocument.php:95-108 | outside that opening the promise fails: in `ab?><?xml` the declaration `ab?>` gets the version at its end, the encoding inserted at offset 6 splits it, and no `version` is left |
| XmlHeaderLaws.SwapReorders | src/XmlDocument.php:111-117 | `<?G encoding=Q version=Q ?>` becomes `<?G version=Q encoding=Q?>` |
| XmlHeaderLaws.DocumentSourceLaws | src/XmlDocument.php:40-43 | the constructor loads the repaired text; an unterminated declaration is refused; on text without `&amp;` the ampersand flag changes nothing |

## Left out

- I/O is not modelled: `loadXML`, `saveXML`, files (`File`, `createXmlDocumentFromFile`, `save`, `addNodeFromFile`), `importNodes`, `toString`/`innerText` serialisation and the error handlers. These need libxml's parser and printer.
- Full XPath is not modelled. `selectNodes`/`selectSingleNode` follow a path of child-element names after the leading-`/` fix; namespace registration for queries is left out.
- Reflection and `Serialize::parseAttributes` are inputs. The object's class, attributes and ordered `(rule, name, value)` members arrive already built in `Mapping.Value`.
- Mapping.LastSegment: `getShortName` for an anonymous annotated class is approximated by the last backslash segment of the class name.
- The mapper's DOM mutation through `XmlNode` handles is threaded as values (`Mapping.Built`). Aliasing between handles is not modelled.
- The bodies of `XmlNode::appendChild($name)`, `XmlNode::renameNode` and `XmlDocument::emptyDocument` are not part of this model; `EntityParser` only calls them. The model takes them as follows.
  - `appendChild($name)` creates the child as `createChildNode($name)` does: the sanitised name, no namespace (XmlNode.NewElement without a URI).
  - `renameNode` changes the element's name and nothing else.
  - `emptyDocument($name, $uri)` makes its element with XmlNode.NewElement: the sanitised name through `createElement` when there is no URI, the name as given through `createElementNS` when there is one.
- Handle identity is not modelled. A wrapper is a path, so a sibling's path shifts after an insert or removal, while a PHP wrapper keeps pointing at its node.
- DOM name validity is approximated by `Dom.IsXmlName`: non-empty, with a name-start first character, and name characters after it. Pretty-printing, `preserveWhiteSpace` effects, and the `nodeValue .=` rewrite of text in `innerXML` are not modelled.
- innerXML's parsing of its markup part (`simplexml_load_string`, code 252 on failure) is left out, because it is the XML parser. Only the string split is modelled.
- `XmlUtil`'s `createChildBefore`, `createChildBeforeNode`, `removeNode`, `selectSingleNode`, `innerXML`, `br2nl`, `showXml`, `extractNamespaces` and `getFormattedDocument` are not modelled. They repeat, or are outside, the operations above.
- `CleanDocument` is not part of this model.
- XmlHeaderRepair.FixXmlHeaderForces: the first `version` and `encoding` are proved only for a text without a declaration, or whose declaration opens it as `<?xml ` or `<?xml?>`. Elsewhere the insert at offset 6 can land inside an earlier insert, and XmlHeaderRepair.InsertSplitsVersion shows this leaving no version.
- Mapping.NsGet: a namespace list is a PHP array, so a prefix cannot occur twice in it. The model's list can repeat a key, and then NsGet reads the first entry while DomLaws.ApplyNsLookup keeps the last; no such list comes from PHP.
- EntityParser.EntityParser.ParseProperties: the class of `$this->properties` values is modelled as an ordered list of `(name, XmlProperty)`. That is how PHP keeps an array with string keys.

## Findings

| source | as written | input that shows it | evidently intended | confidence | as-written member | corrected member |
|---|---|---|---|---|---|---|
| src/XmlNode.php:195-202 | text after the last `>` is split off and then only appended in the branch that found a `<` | "a>b" adds only "a>" | the text after the last `>` is kept in both branches | medium, not executed | XmlNodeLaws.InnerSplitLosesTrail | XmlNodeLaws.InnerSplitLaws |
| src/XmlNode.php:222 | `!empty($endText)` drops a trailing "0" | "<b/>0" adds `<b/>` without "0" | a trailing text is dropped only when it is "" | medium, not executed | XmlNodeLaws.InnerSplitDropsZero | XmlNodeLaws.InnerSplitLaws |
