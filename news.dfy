/** The announcement and tip feed (src/news/news.ts). Times are epoch
    milliseconds; the clock reading `now` is a parameter. */
module News {
  import opened Interfaces
  import opened Visibility

  datatype Announcement =
    | ClientAnnouncement(shortCode: string, eventTime: int, window: Window)
    | ServerAnnouncement(title: string, body: string, window: Window)

  /** 10 Oct 2024 15:00, 10 Oct 2024 15:30, 20 Oct 2024 00:00 */
  const OCT_10_1500: int := 1728572400000
  const OCT_10_1530: int := 1728574200000
  const OCT_20: int := 1729382400000
  /** 15 Oct 2024 00:00 and 30 Sep 2024 00:00 */
  const OCT_15: int := 1728950400000
  const SEP_30: int := 1727654400000

  const ANNOUNCEMENTS: seq<Announcement> := [
    ClientAnnouncement("discord-gaming-session", OCT_10_1500, Window(None, Some(OCT_10_1530))),
    ServerAnnouncement(
      "New Update!",
      "Thank you for all your support, our game has recently reached 1000+ downloads.\n" +
      "\n" +
      "This update brings you with new features fundamental to a smooth game experience, including\n" +
      "1. the ability to reconnect in the middle of the game\n" +
      "2. the ability to view the scores of players after the match\n" +
      "3. the ability to view the player list at the start of the match \n" +
      "4. the announcement system that you are reading right now\n" +
      "5. small UI improvements\n" +
      "\n" +
      "As you may know, hosting the server requires quite some money, I have decided to add a small amount of ads in the game. Thank you for your understanding.\n" +
      "\n" +
      "My next goal is to work on major UI improvements, stayed tuned.",
      Window(None, Some(OCT_20))),
    ServerAnnouncement("This is a test title 2", "This is a test body 2", Window(None, Some(OCT_10_1530)))
  ]

  const TIPS: seq<Tip> := [
    Tip("Want to play with others on the internet? Join our Discord server! The link is on the home page.", Window(None, None)),
    Tip("Would you like to give feedback on the game? Or chat with others who are also interested in Tenbin? Join our Discord server! The link is on the home page.", Window(None, None)),
    Tip("Remember you can always review the rules by clicking the button on the top-right corner of the screen.", Window(None, None)),
    Tip("A new rule will be added when a player is eliminated. You can always review the new rules by clicking the rules button after this happens.", Window(None, None)),
    Tip("You can change your number anytime before the time runs out.", Window(None, None)),
    Tip("To clarify, this is an actual online game. Try joining with your friends at the same time and you will be in the same game!", Window(None, None)),
    Tip("To clarify, this is an actual online game. Try joining with your friends at the same time and you will be in the same game!", Window(None, None)),
    Tip("We recently reached 1000 downloads on Google Play, thanks for all your support!", Window(None, Some(OCT_15))),
    Tip("NEW: As an experiment, we shortened the time per round to 1 minute. Let me know if this is better on Discord. The link is on the home page.", Window(None, Some(SEP_30))),
    Tip("NEW: As an experiment, we shortened the time per round to 1 minute. Let me know if this is better on Discord. The link is on the home page.", Window(None, Some(SEP_30))),
    Tip("NEW: As an experiment, we shortened the time per round to 1 minute. Let me know if this is better on Discord. The link is on the home page.", Window(None, Some(SEP_30)))
  ]

  datatype Feed = Feed(announcements: seq<Announcement>, tips: seq<string>)

  /** getNews over given lists: the announcements and the tip messages whose
      window contains now, each in list order. */
  function NewsFeed(announcements: seq<Announcement>, tips: seq<Tip>, now: int): (r: Feed)
    ensures forall a :: a in r.announcements <==> a in announcements && Shows(a.window, now)
    ensures forall t :: t in tips && Shows(t.window, now) ==> t.message in r.tips
    ensures forall m :: m in r.tips ==> exists t :: t in tips && Shows(t.window, now) && t.message == m
    ensures IsSubsequence(r.announcements, announcements)
    ensures IsSubsequence(r.tips, Messages(tips))
  {
    VisibleMembers(announcements, (a: Announcement) => a.window, now);
    Feed(Visible(announcements, (a: Announcement) => a.window, now), VisibleMessages(tips, now))
  }

  /** getNews: the feed of the server's own lists at time now; the tips
      without a window are always listed. */
  function GetNews(now: int): (r: Feed)
    ensures forall a :: a in r.announcements <==> a in ANNOUNCEMENTS && Shows(a.window, now)
    ensures forall t :: t in TIPS && t.window == Window(None, None) ==> t.message in r.tips
    ensures forall m :: m in r.tips ==> exists t :: t in TIPS && Shows(t.window, now) && t.message == m
    ensures IsSubsequence(r.announcements, ANNOUNCEMENTS)
    ensures IsSubsequence(r.tips, Messages(TIPS))
  {
    NewsFeed(ANNOUNCEMENTS, TIPS, now)
  }
}
