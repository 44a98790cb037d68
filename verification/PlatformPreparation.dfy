/** `prepare_message_for_platform`: one message becomes several for a platform that shows one image
    per message. */
module PlatformPreparation {
  import opened Strings
  import opened InlineImages

  datatype Attachment = Attachment(kind: string, url: string)

  /** `rest` stands for the fields that are copied along. */
  datatype Message = Message(
    text: Option<string>,
    attachments: seq<Attachment>,
    image: Option<string>,
    file: Option<string>,
    audio: Option<string>,
    rest: string)

  function TextOf(message: Message): string {
    if message.text.Some? then message.text.value else ""
  }

  function Clean(field: Option<string>): string {
    if field.Some? then Strip(field.value) else ""
  }

  function OfKind(attachments: seq<Attachment>, image: bool): seq<Attachment> {
    if attachments == [] then []
    else
      var last := attachments[|attachments| - 1];
      var init := OfKind(attachments[..|attachments| - 1], image);
      if (last.kind == "image") == image then init + [last] else init
  }

  function RefAttachments(refs: seq<string>): seq<Attachment> {
    if refs == [] then []
    else
      var last := refs[|refs| - 1];
      RefAttachments(refs[..|refs| - 1]) + (if Strip(last) != "" then [Attachment("image", last)] else [])
  }

  function LegacyImages(message: Message): seq<Attachment> {
    if Clean(message.image) != "" then [Attachment("image", Clean(message.image))] else []
  }

  /** The images a message shows: its image attachments and its legacy image. */
  function ImagesOf(message: Message): seq<Attachment> {
    OfKind(message.attachments, true) + LegacyImages(message)
  }

  function AllImages(messages: seq<Message>): seq<Attachment> {
    if messages == [] then [] else AllImages(messages[..|messages| - 1]) + ImagesOf(messages[|messages| - 1])
  }

  function AllOthers(messages: seq<Message>): seq<Attachment> {
    if messages == [] then []
    else AllOthers(messages[..|messages| - 1]) + OfKind(messages[|messages| - 1].attachments, false)
  }

  /** A message with one image and nothing else to show. */
  predicate ShowsOne(message: Message, image: Attachment) {
    && message.text.None? && message.attachments == [image]
    && message.image.None? && message.file.None? && message.audio.None?
  }

  /** The messages show the images, one each and in order. */
  ghost predicate ShowEach(messages: seq<Message>, images: seq<Attachment>, rest: string) {
    |messages| == |images|
    && forall i :: 0 <= i < |images| ==> ShowsOne(messages[i], images[i]) && messages[i].rest == rest
  }

  /** The message without its images. */
  function BaseOf(message: Message, split: Split): Message {
    message.(text := if split.hasText then split.text else None,
             attachments := OfKind(message.attachments, false), image := None)
  }

  lemma {:induction false} OthersHaveNoImage(attachments: seq<Attachment>)
    ensures OfKind(OfKind(attachments, false), true) == []
    ensures OfKind(OfKind(attachments, false), false) == OfKind(attachments, false)
    ensures OfKind(OfKind(attachments, true), false) == []
  {
    if attachments != [] {
      var init, last := attachments[..|attachments| - 1], attachments[|attachments| - 1];
      OthersHaveNoImage(init);
      assert (OfKind(init, false) + [last])[..|OfKind(init, false)|] == OfKind(init, false);
      assert (OfKind(init, true) + [last])[..|OfKind(init, true)|] == OfKind(init, true);
    }
  }

  /** Attachments are separated by their kind, each kept once and in its order. */
  lemma {:induction false} SeparatedByKind(attachments: seq<Attachment>)
    ensures forall a :: a in OfKind(attachments, true) ==> a.kind == "image"
    ensures forall a :: a in OfKind(attachments, false) ==> a.kind != "image"
    ensures multiset(attachments) == multiset(OfKind(attachments, true)) + multiset(OfKind(attachments, false))
  {
    if attachments != [] {
      var init, last := attachments[..|attachments| - 1], attachments[|attachments| - 1];
      assert attachments == init + [last];
      SeparatedByKind(init);
    }
  }

  lemma {:induction false} RefsAreImages(refs: seq<string>)
    ensures forall a :: a in RefAttachments(refs) ==> a.kind == "image"
  {
    hide Strip;
    if refs != [] { RefsAreImages(refs[..|refs| - 1]); }
  }

  lemma {:induction false} ImagesAreImages(attachments: seq<Attachment>)
    ensures forall a :: a in OfKind(attachments, true) ==> a.kind == "image"
  {
    if attachments != [] { ImagesAreImages(attachments[..|attachments| - 1]); }
  }

  lemma ShownImage(message: Message, image: Attachment)
    requires ShowsOne(message, image) && image.kind == "image"
    ensures ImagesOf(message) == [image] && OfKind(message.attachments, false) == []
  {
    assert [image][..0] == [];
    assert OfKind([image], true) == OfKind([], true) + [image];
  }

  /** The images of the messages that show one each. */
  lemma {:induction false} ImagesInOrder(
    before: seq<Message>, shown: seq<Message>, images: seq<Attachment>, rest: string)
    requires ShowEach(shown, images, rest) && forall i :: 0 <= i < |images| ==> images[i].kind == "image"
    ensures AllImages(before + shown) == AllImages(before) + images && AllOthers(before + shown) == AllOthers(before)
  {
    hide ImagesOf, ShowsOne, OfKind;
    if images == [] {
      assert before + shown == before;
    } else {
      var n := |images| - 1;
      ImagesInOrder(before, shown[..n], images[..n], rest);
      ShownImage(shown[n], images[n]);
      assert (before + shown)[..|before + shown| - 1] == before + shown[..n];
      assert AllImages(before) + images == (AllImages(before) + images[..n]) + [images[n]];
    }
  }

  /** The loop over the attachments. */
  method SeparateAttachments(attachments: seq<Attachment>) returns (images: seq<Attachment>, others: seq<Attachment>)
    ensures images == OfKind(attachments, true) && others == OfKind(attachments, false)
  {
    images, others := [], [];
    for i := 0 to |attachments|
      invariant images == OfKind(attachments[..i], true) && others == OfKind(attachments[..i], false)
    {
      assert attachments[..i + 1][..i] == attachments[..i];
      if attachments[i].kind == "image" {
        images := images + [attachments[i]];
        continue;
      }
      others := others + [attachments[i]];
    }
    assert attachments[..|attachments|] == attachments;
  }

  /** One message for each image, with nothing else to show. */
  function ShownOf(message: Message, images: seq<Attachment>): (r: seq<Message>)
    ensures ShowEach(r, images, message.rest)
  {
    seq(|images|, i requires 0 <= i < |images| =>
      message.(text := None, image := None, attachments := [images[i]], file := None, audio := None))
  }

  /** The loop over the images that are sent. */
  method AppendImages(message: Message, before: seq<Message>, images: seq<Attachment>) returns (prepared: seq<Message>)
    ensures prepared == before + ShownOf(message, images)
  {
    prepared := before;
    ghost var shown := ShownOf(message, images);
    for k := 0 to |images|
      invariant prepared == before + shown[..k]
    {
      assert shown[..k + 1] == shown[..k] + [shown[k]];
      var one := message.(text := None, image := None, attachments := [images[k]], file := None, audio := None);
      prepared := prepared + [one];
    }
    assert shown[..|images|] == shown;
  }

  /** The images to be sent: inline references, then attachments, then the legacy image. */
  function ImagesToSend(message: Message, refs: seq<string>): seq<Attachment> {
    RefAttachments(refs) + OfKind(message.attachments, true) + LegacyImages(message)
  }

  /** One attachment for each reference, as the placeholders count them. */
  function OnePerRef(refs: seq<string>): (r: seq<Attachment>)
    ensures |r| == |refs|
  {
    seq(|refs|, i requires 0 <= i < |refs| => Attachment("image", refs[i]))
  }

  ghost predicate NoneBlank(refs: seq<string>) {
    forall r :: r in refs ==> Strip(r) != ""
  }

  lemma {:induction false} FewerIffBlank(refs: seq<string>)
    ensures |RefAttachments(refs)| <= |refs|
    ensures |RefAttachments(refs)| == |refs| <==> NoneBlank(refs)
    ensures NoneBlank(refs) ==> RefAttachments(refs) == OnePerRef(refs)
  {
    hide Strip;
    if refs != [] {
      var init, last := refs[..|refs| - 1], refs[|refs| - 1];
      assert refs == init + [last] && OnePerRef(refs) == OnePerRef(init) + [Attachment("image", last)];
      FewerIffBlank(init);
    }
  }

  /** A reference that is not blank is sent behind those before it that are not. */
  lemma {:induction false} SentBehind(refs: seq<string>, i: nat)
    requires i < |refs| && Strip(refs[i]) != ""
    ensures var place := |RefAttachments(refs[..i])|;
      place < |RefAttachments(refs)| && RefAttachments(refs)[place] == Attachment("image", refs[i])
  {
    hide Strip;
    var init := refs[..|refs| - 1];
    if i < |init| {
      assert init[..i] == refs[..i];
      SentBehind(init, i);
    }
  }

  /** Placeholder i + 1 and the image of the i-th reference. The image is sent at all exactly when the
      reference is not blank, and then it is the i-th image sent exactly when no reference before it is
      blank. All images are sent, and each placeholder counts its own, exactly when none is blank. */
  lemma PlaceholdersCountImages(message: Message, refs: seq<string>)
    ensures RefAttachments(refs) == OnePerRef(refs) <==> NoneBlank(refs)
    ensures NoneBlank(refs) ==> forall i :: 0 <= i < |refs| ==>
      i < |ImagesToSend(message, refs)| && ImagesToSend(message, refs)[i] == Attachment("image", refs[i])
    ensures forall i :: 0 <= i < |refs| && Strip(refs[i]) != "" ==>
      var place := |RefAttachments(refs[..i])|;
      && place < |RefAttachments(refs)| && RefAttachments(refs)[place] == Attachment("image", refs[i])
      && (place == i <==> NoneBlank(refs[..i]))
    ensures forall r :: Strip(r) == "" ==> Attachment("image", r) !in RefAttachments(refs)
  {
    hide Strip, RefAttachments, NoneBlank;
    FewerIffBlank(refs);
    assert NoneBlank(refs) ==> forall i :: 0 <= i < |refs| ==> ImagesToSend(message, refs)[i] == OnePerRef(refs)[i];
    forall i | 0 <= i < |refs| && Strip(refs[i]) != ""
      ensures var place := |RefAttachments(refs[..i])|;
        && place < |RefAttachments(refs)| && RefAttachments(refs)[place] == Attachment("image", refs[i])
        && (place == i <==> NoneBlank(refs[..i]))
    {
      SentBehind(refs, i);
      FewerIffBlank(refs[..i]);
    }
    forall r | Strip(r) == "" ensures Attachment("image", r) !in RefAttachments(refs) { BlankIsNotSent(refs, r); }
  }

  lemma {:induction false} BlankIsNotSent(refs: seq<string>, r: string)
    requires Strip(r) == ""
    ensures Attachment("image", r) !in RefAttachments(refs)
  {
    hide Strip;
    if refs != [] { BlankIsNotSent(refs[..|refs| - 1], r); }
  }

  // ----- a placeholder without an image -----

  const BLANK_EXAMPLE := "[CQ:image,url=%20]hello"

  /** The url of this image unquotes to a blank, which counts as a usable reference. */
  const BLANK_MATCH := Match(0, 18, Some(" "))

  lemma KeptOfOne(m: Match)
    ensures KeptOf([[m]]) == [m]
  {
    assert [[m]][1..] == [] && Join([[m]]) == [m] + Join([]) && [m] + [] == [m];
    var none: seq<Match> := [];
    assert [m][..0] == none && SortByStart(none) == none && Greedy(none) == none;
    assert SortByStart([m]) == Insert(none, m) == [m];
    assert Greedy([m]) == none + [m];
  }

  const BLANK_REWRITTEN := "【见下方图片】hello"

  lemma GapsOfExample()
    ensures Apart([BLANK_MATCH], |BLANK_EXAMPLE|) && Supported([BLANK_MATCH]) == [BLANK_MATCH]
    ensures Before([BLANK_MATCH], |BLANK_EXAMPLE|, |BLANK_EXAMPLE|)
    ensures GapsTo(BLANK_EXAMPLE, [BLANK_MATCH], |BLANK_EXAMPLE|) == ["", "hello"]
  {
    var text, spans := BLANK_EXAMPLE, [BLANK_MATCH];
    assert spans[..0] == [] && Supported(spans) == [] + spans;
    assert text[18..|text|] == "hello" && text[..0] == "";
    assert GapsTo(text, [], 0) == [text[..0]];
    assert GapsTo(text, spans, |text|) == GapsTo(text, [], 0) + [text[18..|text|]];
  }

  lemma WovenExample()
    ensures Weave(["", "hello"], Placeholders(1)) == BLANK_REWRITTEN
    ensures Join(["", "hello"]) == "hello"
  {
    var gaps := ["", "hello"];
    assert gaps[1..] == ["hello"] && gaps[1..][1..] == [];
    assert PlaceholderForIndex(1, 1) == "【见下方图片】";
    var fillers := Placeholders(1);
    assert fillers[0] == "【见下方图片】" && fillers[..0] == [] && gaps[..1] == [""];
    assert Weave([""], []) == "";
    assert Weave(gaps, fillers) == Weave(gaps[..1], fillers[..0]) + fillers[0] + gaps[1];
  }

  lemma ExampleIsTrimmed()
    ensures Strip("hello") == "hello" && Strip(BLANK_REWRITTEN) == BLANK_REWRITTEN
  {
    StripTrimmed("hello");
    StripTrimmed(BLANK_REWRITTEN);
  }

  lemma SplitOfExample()
    ensures Apart([BLANK_MATCH], |BLANK_EXAMPLE|)
    ensures SplitOf(BLANK_EXAMPLE, [BLANK_MATCH]) == Split(Some(BLANK_REWRITTEN), [" "], true)
  {
    hide Strip, Supported, GapsTo, Weave, Join, Placeholders;
    GapsOfExample();
    WovenExample();
    ExampleIsTrimmed();
    assert RefsOf([BLANK_MATCH]) == [" "];
  }

  /** The text tells the reader to look at the image below, and no image follows. */
  lemma PlaceholderWithoutImage(message: Message, prepared: seq<Message>)
    requires message.text == Some(BLANK_EXAMPLE) && message.attachments == [] && message.image.None?
    requires Apart(KeptOf([[BLANK_MATCH]]), |BLANK_EXAMPLE|)
    requires SentApart(message, SplitOf(BLANK_EXAMPLE, KeptOf([[BLANK_MATCH]])), prepared)
    ensures |prepared| == 1 && prepared[0].text == Some(BLANK_REWRITTEN) && AllImages(prepared) == []
  {
    hide SplitOf, KeptOf, Strip;
    SplitOfExample();
    KeptOfOne(BLANK_MATCH);
    var split := SplitOf(BLANK_EXAMPLE, [BLANK_MATCH]);
    assert [" "][..0] == [] && RefAttachments([" "]) == [] by { StripBlank(); }
    assert ImagesToSend(message, split.refs) == [];
    SentShowsAll(message, split, prepared);
  }

  lemma StripBlank()
    ensures Strip(" ") == ""
  {
    assert " "[1..] == "";
  }

  lemma AllAreImages(message: Message, refs: seq<string>)
    ensures forall i :: 0 <= i < |ImagesToSend(message, refs)| ==> ImagesToSend(message, refs)[i].kind == "image"
  {
    hide OfKind, RefAttachments, Strip;
    RefsAreImages(refs);
    ImagesAreImages(message.attachments);
    var images := ImagesToSend(message, refs);
    forall i | 0 <= i < |images| ensures images[i].kind == "image" { assert images[i] in images; }
  }

  /** Inline images come first, then the attached ones, and the legacy image is the last. */
  lemma ImagesSentInOrder(message: Message, refs: seq<string>)
    ensures RefAttachments(refs) + OfKind(message.attachments, true) <= ImagesToSend(message, refs)
    ensures Clean(message.image) == "" ==>
      ImagesToSend(message, refs) == RefAttachments(refs) + OfKind(message.attachments, true)
    ensures Clean(message.image) != "" ==>
      var images := ImagesToSend(message, refs);
      |images| == |RefAttachments(refs)| + |OfKind(message.attachments, true)| + 1
      && images[|images| - 1] == Attachment("image", Strip(message.image.value))
  {
    hide RefAttachments, OfKind, Strip;
    var n := |RefAttachments(refs) + OfKind(message.attachments, true)|;
    assert ImagesToSend(message, refs)[..n] == RefAttachments(refs) + OfKind(message.attachments, true);
  }

  lemma OneMessage(message: Message)
    ensures AllImages([message]) == ImagesOf(message) && AllOthers([message]) == OfKind(message.attachments, false)
  {
    hide ImagesOf, OfKind;
    assert [message][..0] == [];
    assert AllImages([message]) == AllImages([]) + ImagesOf(message);
  }

  lemma BaseHasNoImages(message: Message, split: Split)
    ensures ImagesOf(BaseOf(message, split)) == []
    ensures OfKind(BaseOf(message, split).attachments, false) == OfKind(message.attachments, false)
  {
    hide OfKind, Strip;
    OthersHaveNoImage(message.attachments);
  }

  /** Something besides images is to be sent. */
  predicate HasBase(message: Message, split: Split) {
    split.hasText || OfKind(message.attachments, false) != [] || Clean(message.file) != "" || Clean(message.audio) != ""
  }

  /** What is sent instead of the message: perhaps a base message with everything but the images,
      then each image alone. Without anything to send the message itself goes out. */
  ghost predicate SentApart(message: Message, split: Split, prepared: seq<Message>) {
    var images := ImagesToSend(message, split.refs);
    if !HasBase(message, split) && images == [] then prepared == [message]
    else exists shown ::
      && ShowEach(shown, images, message.rest)
      && prepared == (if HasBase(message, split) then [BaseOf(message, split)] else []) + shown
  }

  lemma SentShowsAll(message: Message, split: Split, prepared: seq<Message>)
    requires SentApart(message, split, prepared)
    ensures AllImages(prepared) == ImagesToSend(message, split.refs)
    ensures AllOthers(prepared) == OfKind(message.attachments, false)
  {
    hide ImagesOf, OfKind, Clean, ShowEach, ImagesToSend, AllImages, AllOthers, BaseOf;
    var images := ImagesToSend(message, split.refs);
    AllAreImages(message, split.refs);
    NothingShown();
    if !HasBase(message, split) && images == [] {
      OneMessage(message);
      NoImagesAtAll(message, split.refs);
    } else {
      var base := BaseOf(message, split);
      var before := if HasBase(message, split) then [base] else [];
      var shown :| ShowEach(shown, images, message.rest) && prepared == before + shown;
      ImagesInOrder(before, shown, images, message.rest);
      OneMessage(base);
      BaseHasNoImages(message, split);
      assert [] + images == images;
    }
  }

  /** File, audio and the fields that are copied along: the first message keeps file and audio if the
      message has one that is not blank, no other message has any, and all keep the rest. */
  lemma SentKeepsTheRest(message: Message, split: Split, prepared: seq<Message>)
    requires SentApart(message, split, prepared)
    ensures prepared != [] && forall i :: 0 <= i < |prepared| ==> prepared[i].rest == message.rest
    ensures Clean(message.file) != "" || Clean(message.audio) != "" ==>
      prepared[0].file == message.file && prepared[0].audio == message.audio
    ensures forall i :: 0 < i < |prepared| ==> prepared[i].file.None? && prepared[i].audio.None?
    ensures split.hasText ==> prepared[0].text == split.text
    ensures forall i :: 0 < i < |prepared| ==> prepared[i].text.None?
  {
    hide OfKind, RefAttachments, LegacyImages, Strip;
    var images := ImagesToSend(message, split.refs);
    if HasBase(message, split) || images != [] {
      var before := if HasBase(message, split) then [BaseOf(message, split)] else [];
      var shown :| ShowEach(shown, images, message.rest) && prepared == before + shown;
      forall i | |before| <= i < |prepared|
        ensures prepared[i].rest == message.rest
        ensures prepared[i].text.None? && prepared[i].file.None? && prepared[i].audio.None?
      {
        assert prepared[i] == shown[i - |before|] && ShowsOne(shown[i - |before|], images[i - |before|]);
      }
    }
  }

  lemma NothingShown()
    ensures AllImages([]) == [] && AllOthers([]) == []
  {
  }

  lemma NoImagesAtAll(message: Message, refs: seq<string>)
    requires ImagesToSend(message, refs) == []
    ensures ImagesOf(message) == []
  {
    hide OfKind, RefAttachments, LegacyImages;
  }

  /** `prepare_message_for_platform`: on the other platforms nothing happens. Here the images leave
      one per message, in order, behind one message with everything else. */
  method PrepareMessageForPlatform(message: Message, platform: string, found: seq<seq<Match>>)
    returns (prepared: seq<Message>)
    requires forall i :: 0 <= i < |found| ==> AreFound(found[i], |TextOf(message)|)
    ensures Lower(Strip(platform)) != "weixin" ==> prepared == [message]
    ensures Apart(KeptOf(found), |TextOf(message)|)
    ensures Lower(Strip(platform)) == "weixin" ==>
      var split := SplitOf(TextOf(message), KeptOf(found));
      && SentApart(message, split, prepared)
      && AllImages(prepared) == ImagesToSend(message, split.refs)
      && AllOthers(prepared) == OfKind(message.attachments, false)
  {
    hide SplitOf, KeptOf, Apart, AreFound, Strip, Lower, OfKind, RefAttachments, ShowEach, Clean, LegacyImages, ShownOf;
    var s := SplitInlineImages(TextOf(message), found);
    if Lower(Strip(platform)) != "weixin" {
      return [message];
    }
    var imageAttachments, nonImageAttachments := SeparateAttachments(message.attachments);
    var images := RefAttachments(s.refs) + imageAttachments + LegacyImages(message);
    prepared := [];
    if s.hasText || nonImageAttachments != [] || Clean(message.file) != "" || Clean(message.audio) != "" {
      var text := if s.hasText then s.text else None;
      prepared := [message.(text := text, attachments := nonImageAttachments, image := None)];
    }
    assert prepared == if HasBase(message, s) then [BaseOf(message, s)] else [];
    assert images == ImagesToSend(message, s.refs);
    prepared := AppendImages(message, prepared, images);
    NoneShown(ShownOf(message, images), images, message.rest);
    if prepared == [] {
      prepared := [message];
    }
    assert SentApart(message, s, prepared);
    SentShowsAll(message, s, prepared);
  }

  lemma NoneShown(shown: seq<Message>, images: seq<Attachment>, rest: string)
    requires ShowEach(shown, images, rest)
    ensures shown == [] <==> images == []
  {
  }
}
