/**
 * The FAQ chatbot: a per-locale knowledge base of (keywords, answer) entries,
 * the first-match-wins responder over it, and the chat's message list.
 */
module FaqChatbot {
  import opened Text
  import opened Wrappers

  /** One FAQ entry: any of its keywords found in a message selects its answer. */
  datatype Faq = Faq(keywords: seq<string>, answer: string)

  /** The knowledge of one locale, entries in the order they are tried. */
  datatype Knowledge = Knowledge(greeting: string, fallback: string, faqs: seq<Faq>)

  const French := Knowledge(
    "Bonjour! Je suis l'assistant Maghrib.Digital. Posez-moi vos questions sur la création de LLC US.",
    "Je ne suis pas sûr de comprendre. Essayez de poser une question sur: la création de LLC, les prix, les délais, ou Stripe.",
    [
      Faq(["prix", "coût", "tarif", "combien", "prix"],
          "Nos forfaits LLC commencent à 1,799 MAD (Starter), 2,299 MAD (Growth), et 3,999 MAD (Business). Le forfait Growth est le plus populaire et inclut la passerelle de paiement."),
      Faq(["délai", "temps", "combien de temps", "durée", "jours"],
          "La création complète prend 5 jours ouvrables. L'EIN est obtenu en 24-48h. Le compte bancaire US est configuré dans les 3-5 jours suivant l'approbation."),
      Faq(["stripe", "paiement", "accepter"],
          "Oui! Nos LLC sont structurées pour être Stripe-ready. Nous garantissons la conformité aux exigences Stripe pour les non-résidents US."),
      Faq(["delaware", "wyoming", "état", "choisir"],
          "Delaware est idéal si vous visez des investisseurs ou une IPO. Wyoming est plus économique avec des frais annuels plus bas. Les deux fonctionnent avec Stripe."),
      Faq(["ein", "fiscal", "irs", "impôt"],
          "L'EIN (Employer Identification Number) est votre numéro fiscal US. Nous l'obtenons pour vous en 24-48h via le service express de l'IRS."),
      Faq(["banque", "compte", "mercury", "brex"],
          "Nous configurons des comptes Mercury, Brex ou Relay pour les non-résidents US. Ces banques fintech acceptent les LLC étrangères sans nécessiter de présence physique."),
      Faq(["document", "papier", "reçu"],
          "Vous recevrez: Certificat LLC, EIN Letter, Operating Agreement, et guide de configuration bancaire. Le tout livré par email en 5 jours."),
      Faq(["maroc", "marocain", "résident"],
          "Absolument! Nous sommes basés à Casablanca et spécialisés dans la création de LLC pour les entrepreneurs marocains. Nous parlons Darija, Français et Anglais."),
      Faq(["anonyme", "privacy", "confidentialité"],
          "Nous offrons des LLC anonymes à partir de 3,499 MAD avec service de nominee et protection maximale de votre identité."),
      Faq(["whatsapp", "contact", "joindre"],
          "Cliquez sur le bouton WhatsApp en bas à droite du site. Nous répondons en moins d'1 heure pendant les heures ouvrables (Lun-Sam).")
    ])

  const English := Knowledge(
    "Hello! I'm the Maghrib.Digital assistant. Ask me your questions about US LLC formation.",
    "I'm not sure I understand. Try asking about: LLC formation, pricing, timeline, or Stripe.",
    [
      Faq(["price", "cost", "how much", "pricing"],
          "Our LLC packages start at 1,799 MAD (Starter), 2,299 MAD (Growth), and 3,999 MAD (Business). Growth is most popular and includes payment gateway setup."),
      Faq(["timeline", "how long", "time", "days"],
          "Full formation takes 5 business days. EIN is obtained in 24-48h. US bank account is set up within 3-5 days after approval."),
      Faq(["stripe", "payment", "accept"],
          "Yes! Our LLCs are structured to be Stripe-ready. We guarantee compliance with Stripe requirements for non-US residents."),
      Faq(["delaware", "wyoming", "state", "choose"],
          "Delaware is ideal if you're targeting investors or IPO. Wyoming is more economical with lower annual fees. Both work with Stripe."),
      Faq(["ein", "tax", "irs"],
          "EIN (Employer Identification Number) is your US tax ID. We obtain it for you in 24-48h via IRS express service."),
      Faq(["bank", "account", "mercury", "brex"],
          "We set up Mercury, Brex or Relay accounts for non-US residents. These fintech banks accept foreign LLCs without requiring physical presence."),
      Faq(["document", "paper", "receive"],
          "You'll receive: LLC Certificate, EIN Letter, Operating Agreement, and bank setup guide. All delivered via email in 5 days."),
      Faq(["morocco", "moroccan", "resident"],
          "Absolutely! We're based in Casablanca and specialize in LLC formation for Moroccan entrepreneurs. We speak Darija, French and English."),
      Faq(["anonymous", "privacy"],
          "We offer anonymous LLCs starting at 3,499 MAD with nominee service and maximum identity protection."),
      Faq(["whatsapp", "contact", "reach"],
          "Click the WhatsApp button on the bottom right of the site. We respond within 1 hour during business hours (Mon-Sat).")
    ])

  /** The knowledge base of a locale: English for "en", French for every other locale. */
  function KnowledgeFor(locale: string): (k: Knowledge)
    ensures locale == "en" ==> k == English
    ensures locale != "en" ==> k == French
  {
    if locale == "en" then English else French
  }

  /** Some keyword of the entry occurs in the (already lower-cased) message. */
  predicate Matches(faq: Faq, lowered: string)
  {
    exists j :: 0 <= j < |faq.keywords| && Contains(lowered, faq.keywords[j])
  }

  /** The answer of the first matching entry, or the fallback when none matches. */
  function FirstAnswer(faqs: seq<Faq>, lowered: string, fallback: string): string
  {
    if faqs == [] then fallback
    else if Matches(faqs[0], lowered) then faqs[0].answer
    else FirstAnswer(faqs[1..], lowered, fallback)
  }

  /** The reply a knowledge base gives to `message`, matched in lower case. */
  function Reply(k: Knowledge, message: string): string
  {
    FirstAnswer(k.faqs, Lower(message), k.fallback)
  }

  /** The reply the chatbot gives to `message` in `locale`. */
  function Respond(message: string, locale: string): string
  {
    Reply(KnowledgeFor(locale), message)
  }

  /**
   * The responder: picks the locale's table, then tries its entries in
   * order; the first one with a keyword in the lower-cased message answers.
   */
  method GetAIResponse(message: string, locale: string) returns (reply: string)
    ensures reply == Respond(message, locale)
  {
    var knowledge := KnowledgeFor(locale);
    reply := ReplyFrom(knowledge, message);
  }

  /** The loop of the responder over one table, with its early return. */
  method ReplyFrom(knowledge: Knowledge, message: string) returns (reply: string)
    ensures reply == Reply(knowledge, message)
  {
    var lowerMessage := Lower(message);
    var i := 0;
    while i < |knowledge.faqs|
      invariant 0 <= i <= |knowledge.faqs|
      invariant FirstAnswer(knowledge.faqs, lowerMessage, knowledge.fallback)
             == FirstAnswer(knowledge.faqs[i..], lowerMessage, knowledge.fallback)
    {
      assert knowledge.faqs[i..][1..] == knowledge.faqs[i + 1..];
      if Matches(knowledge.faqs[i], lowerMessage) {
        return knowledge.faqs[i].answer;
      }
      i := i + 1;
    }
    return knowledge.fallback;
  }

  /**
   * First-match-wins, both ways: the reply is the answer of entry `i` exactly
   * when entry `i` matches and no earlier entry does, and it is the fallback
   * exactly when no entry matches.
   */
  lemma {:induction false} FirstAnswerIsFirstMatch(faqs: seq<Faq>, lowered: string, fallback: string)
    ensures var r := FirstAnswer(faqs, lowered, fallback);
      || (exists i :: 0 <= i < |faqs| && Matches(faqs[i], lowered)
            && (forall j :: 0 <= j < i ==> !Matches(faqs[j], lowered))
            && r == faqs[i].answer)
      || ((forall i :: 0 <= i < |faqs| ==> !Matches(faqs[i], lowered)) && r == fallback)
    ensures (forall i :: 0 <= i < |faqs| ==> !Matches(faqs[i], lowered))
            ==> FirstAnswer(faqs, lowered, fallback) == fallback
  {
    if faqs != [] && !Matches(faqs[0], lowered) {
      FirstAnswerIsFirstMatch(faqs[1..], lowered, fallback);
      var r := FirstAnswer(faqs, lowered, fallback);
      if exists i :: 0 <= i < |faqs[1..]| && Matches(faqs[1..][i], lowered)
            && (forall j :: 0 <= j < i ==> !Matches(faqs[1..][j], lowered))
            && r == faqs[1..][i].answer {
        var i :| 0 <= i < |faqs[1..]| && Matches(faqs[1..][i], lowered)
            && (forall j :: 0 <= j < i ==> !Matches(faqs[1..][j], lowered))
            && r == faqs[1..][i].answer;
        assert forall j :: 0 <= j < i + 1 ==> !Matches(faqs[j], lowered) by {
          forall j | 0 <= j < i + 1 ensures !Matches(faqs[j], lowered) {
            if j > 0 { assert faqs[j] == faqs[1..][j - 1]; }
          }
        }
        assert Matches(faqs[i + 1], lowered) && r == faqs[i + 1].answer;
      } else {
        forall i | 0 <= i < |faqs| ensures !Matches(faqs[i], lowered) {
          if i > 0 { assert faqs[i] == faqs[1..][i - 1]; }
        }
      }
    } else if faqs != [] {
      assert Matches(faqs[0], lowered);
    }
  }

  /** The reply never comes from another locale: it is one of its answers or its fallback. */
  lemma ReplyFromLocale(message: string, locale: string)
    ensures var k := KnowledgeFor(locale); var r := Respond(message, locale);
      r == k.fallback || exists i :: 0 <= i < |k.faqs| && r == k.faqs[i].answer
  {
    var k := KnowledgeFor(locale);
    FirstAnswerIsFirstMatch(k.faqs, Lower(message), k.fallback);
  }

  /** When no keyword of the locale's table occurs, the locale's fallback is returned. */
  lemma NoKeywordGivesFallback(message: string, locale: string)
    requires var k := KnowledgeFor(locale);
      forall i :: 0 <= i < |k.faqs| ==> !Matches(k.faqs[i], Lower(message))
    ensures Respond(message, locale) == KnowledgeFor(locale).fallback
  {
    var k := KnowledgeFor(locale);
    FirstAnswerIsFirstMatch(k.faqs, Lower(message), k.fallback);
  }

  /** A locale other than "en" and "fr" (Arabic, say) is answered from the French table. */
  lemma UnknownLocaleUsesFrench(message: string, locale: string)
    requires locale != "en"
    ensures Respond(message, locale) == Respond(message, "fr")
  {
  }

  /** Matching ignores case: a message and its lower-cased form get the same reply. */
  lemma RespondIgnoresCase(message: string, locale: string)
    ensures Respond(message, locale) == Respond(Lower(message), locale)
  {
    LowerIdempotent(message);
  }

  /**
   * Any English message mentioning "how much" gets the pricing answer, even
   * one that also mentions "time" (such as "how much time"): the pricing
   * entry comes before the timeline entry.
   */
  lemma HowMuchIsPricing(message: string)
    requires Contains(Lower(message), "how much")
    ensures Respond(message, "en") == English.faqs[0].answer
  {
    assert English.faqs[0].keywords[2] == "how much";
    assert Matches(English.faqs[0], Lower(message));
  }

  datatype Role = User | Assistant

  datatype Message = Message(role: Role, content: string)

  /** The suggested questions under the chat: French for "fr", English otherwise. */
  function QuickQuestions(locale: string): (qs: seq<string>)
    ensures |qs| == 3
    ensures locale == "fr" <==> qs[0] == "Quel est le prix?"
    ensures locale == "fr" ==> qs == ["Quel est le prix?", "Délai de création?", "Stripe est-il inclus?"]
    ensures locale != "fr" ==> qs == ["What's the price?", "Timeline?", "Is Stripe included?"]
  {
    if locale == "fr" then ["Quel est le prix?", "Délai de création?", "Stripe est-il inclus?"]
    else ["What's the price?", "Timeline?", "Is Stripe included?"]
  }

  lemma AppendTwo(before: seq<Message>, first: Message, second: Message)
    ensures before + [first] + [second] == before + [first, second]
  {
  }

  /** The chat widget's state: its locale, the conversation so far, and the input box. */
  class Chat {
    const locale: string
    const knowledge: Knowledge
    var messages: seq<Message>
    var input: string
    var isTyping: bool

    /**
     * The page opens with one assistant message, the locale's greeting (the
     * French one for a locale without a table); an absent locale is "fr".
     */
    constructor (localeParam: string)
      ensures locale == (if localeParam == "" then "fr" else localeParam)
      ensures knowledge == KnowledgeFor(locale)
      ensures messages == [Message(Assistant, knowledge.greeting)]
      ensures input == "" && !isTyping
    {
      locale := if localeParam == "" then "fr" else localeParam;
      knowledge := KnowledgeFor(if localeParam == "" then "fr" else localeParam);
      messages := [Message(Assistant, KnowledgeFor(if localeParam == "" then "fr" else localeParam).greeting)];
      input := "";
      isTyping := false;
    }

    /** Typing in the input box. */
    method SetInput(text: string)
      modifies this
      ensures input == text && messages == old(messages) && isTyping == old(isTyping)
    {
      input := text;
    }

    /**
     * The part of `handleSend` before the typing delay: blank input changes
     * nothing; otherwise the input is cleared, the trimmed text is appended as
     * the user's message and the typing indicator comes on.
     */
    method Send() returns (sent: Option<string>)
      modifies this
      ensures Trim(old(input)) == [] ==>
        sent == None && messages == old(messages) && input == old(input) && isTyping == old(isTyping)
      ensures Trim(old(input)) != [] ==>
        sent == Some(Trim(old(input))) && input == ""
        && messages == old(messages) + [Message(User, Trim(old(input)))] && isTyping
    {
      var userMessage := Trim(input);
      if userMessage == [] {
        sent := None;
      } else {
        input := "";
        messages := messages + [Message(User, userMessage)];
        isTyping := true;
        sent := Some(userMessage);
      }
    }

    /** The part after the delay: the reply to `text` is appended and typing stops. */
    method Answer(text: string)
      modifies this
      ensures messages == old(messages) + [Message(Assistant, Reply(knowledge, text))]
      ensures input == old(input) && !isTyping
    {
      var response := ReplyFrom(knowledge, text);
      messages := messages + [Message(Assistant, response)];
      isTyping := false;
    }

    /**
     * Sending as one step: blank input changes nothing; otherwise the input is
     * cleared and the trimmed text, then the reply to it, are appended.
     */
    method HandleSend()
      modifies this
      ensures Trim(old(input)) == [] ==> messages == old(messages) && input == old(input) && isTyping == old(isTyping)
      ensures Trim(old(input)) != [] ==>
        var text := Trim(old(input));
        && input == ""
        && messages == old(messages) + [Message(User, text), Message(Assistant, Reply(knowledge, text))]
        && !isTyping
    {
      var sent := Send();
      if sent.Some? {
        Answer(sent.value);
        AppendTwo(old(messages), Message(User, sent.value), Message(Assistant, Reply(knowledge, sent.value)));
      }
    }
  }
}
